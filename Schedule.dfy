/**
 * The raw-REPL pacing schedule of `execute`: the code is split on `\n`, and
 * each piece is handed to a timer whose delay `t` grows with the text sent so
 * far. The model computes the list of (delay, payload) pairs and the delay of
 * the completion timer instead of running timers. Delays count from the
 * moment the schedule is computed, which is the 60 ms settle after entering
 * raw mode.
 */
module Schedule {
  import opened Bytes

  /** `interval` of `execute`; the settle after entering raw mode is twice it. */
  const INTERVAL: nat := 30
  const SETTLE: nat := 2 * INTERVAL
  /** `page`: lines this long or longer take the long-line branch. */
  const PAGE: nat := 80
  /** The slice width the long-line branch actually uses. */
  const SLICE: nat := 1024
  /** The completion timer fires this long after the last send. */
  const COMPLETION_DELAY: nat := 100

  /** One `setTimeout` of the pacing loop: its delay and what it sends. */
  datatype Send = Send(at: nat, payload: JsString)

  /** `code.split('\n')`: never empty; "" gives one empty line. */
  function Split(s: JsString): (lines: seq<JsString>)
    ensures |lines| >= 1
    decreases |s|
  {
    if s == [] then [[]]
    else
      var rest := Split(s[1..]);
      if s[0] == LF then [[]] + rest
      else [[s[0]] + rest[0]] + rest[1..]
  }

  /** Each line followed by `\n`: what a newline-faithful sender would send. */
  function Terminated(lines: seq<JsString>): JsString
  {
    if lines == [] then [] else lines[0] + [LF] + Terminated(lines[1..])
  }

  /** `Math.ceil(a / b)` for naturals. */
  function CeilDiv(a: nat, b: nat): nat
    requires b > 0
  {
    (a + b - 1) / b
  }

  /** `s.substr(start, n)`: empty when `start` is past the end, cut at the end otherwise. */
  function Substr(s: JsString, start: nat, n: nat): JsString
  {
    if start >= |s| then [] else s[start .. if start + n <= |s| then start + n else |s|]
  }

  /** `Math.ceil(a / b)` is the least multiple count of `b` that reaches `a`. */
  lemma {:induction false} CeilDivBounds(a: nat, b: nat)
    requires b > 0
    ensures a <= CeilDiv(a, b) * b
    ensures CeilDiv(a, b) > 0 ==> (CeilDiv(a, b) - 1) * b < a
  {
    var q, r := (a + b - 1) / b, (a + b - 1) % b;
    assert a + b - 1 == q * b + r;
    assert (q - 1) * b == q * b - b;
  }

  /**
   * `substr` takes the units from `start` on, at most `n` of them, in order;
   * exactly `n` when the string is long enough, none when `start` is past
   * the end.
   */
  lemma {:induction false} SubstrSpec(s: JsString, start: nat, n: nat)
    ensures var r := Substr(s, start, n);
      && |r| <= n
      && (forall k :: 0 <= k < |r| ==> start + k < |s| && r[k] == s[start + k])
      && (start + n <= |s| ==> |r| == n)
      && (start < |s| ==> |r| == if start + n <= |s| then n else |s| - start)
      && (start >= |s| ==> r == [])
  {
  }

  /**
   * The timers one line schedules when the running delay is `t`. A line of
   * fewer than 80 units goes as `line + '\n'` at `t + |line|`; a longer one
   * takes `ceil(|line| / 80)` timers 80 ms apart, the `j`-th sending
   * `line.substr(j * 1024, 1024)` and no newline.
   */
  function LineSends(line: JsString, t: nat): seq<Send>
  {
    if |line| < PAGE then [Send(t + |line|, line + [LF])]
    else
      seq(CeilDiv(|line|, PAGE), j requires 0 <= j < CeilDiv(|line|, PAGE) =>
        Send(t + (j + 1) * PAGE, Substr(line, j * SLICE, SLICE)))
  }

  /** The running delay after a line. */
  function LineEnd(line: JsString, t: nat): nat
  {
    if |line| < PAGE then t + |line| else t + CeilDiv(|line|, PAGE) * PAGE
  }

  /** The running delay after all the lines. */
  function EndOf(lines: seq<JsString>): nat
  {
    if lines == [] then 0 else LineEnd(lines[|lines| - 1], EndOf(lines[..|lines| - 1]))
  }

  /** All timers of the lines, in the order the loop creates them. */
  function SendsOf(lines: seq<JsString>): seq<Send>
  {
    if lines == [] then []
    else
      var init := lines[..|lines| - 1];
      SendsOf(init) + LineSends(lines[|lines| - 1], EndOf(init))
  }

  function Payloads(sends: seq<Send>): (p: seq<JsString>)
    ensures |p| == |sends|
  {
    seq(|sends|, i requires 0 <= i < |sends| => sends[i].payload)
  }

  /**
   * The loop of `executeRaw` in `execute`: the outer loop over the lines,
   * the inner one over the pieces of a long line, `t` accumulated across
   * both; the completion timer is set at `t + 100`.
   */
  method Pace(code: JsString) returns (sends: seq<Send>, completion: nat)
    ensures sends == SendsOf(Split(code))
    ensures completion == EndOf(Split(code)) + COMPLETION_DELAY
  {
    var lines := Split(code);
    var t := 0;
    sends := [];
    for i := 0 to |lines|
      invariant sends == SendsOf(lines[..i])
      invariant t == EndOf(lines[..i])
    {
      var line := lines[i];
      PrefixSnoc(lines, i);
      if |line| < PAGE {
        t := t + |line|;
        sends := sends + [Send(t, line + [LF])];
      } else {
        var pieces;
        pieces, t := PaceLongLine(line, t);
        sends := sends + pieces;
      }
    }
    assert lines[..|lines|] == lines;
    completion := t + COMPLETION_DELAY;
  }

  /** The inner loop of a long line: one timer per 80 units, each 80 ms after the previous one. */
  method PaceLongLine(line: JsString, t0: nat) returns (pieces: seq<Send>, t: nat)
    requires |line| >= PAGE
    ensures pieces == LineSends(line, t0)
    ensures t == LineEnd(line, t0)
  {
    t := t0;
    pieces := [];
    for j := 0 to CeilDiv(|line|, PAGE)
      invariant t == t0 + j * PAGE
      invariant pieces == LineSends(line, t0)[..j]
    {
      assert LineSends(line, t0)[..j + 1] == LineSends(line, t0)[..j] + [LineSends(line, t0)[j]];
      t := t + PAGE;
      pieces := pieces + [Send(t, Substr(line, j * SLICE, SLICE))];
    }
    assert LineSends(line, t0)[..CeilDiv(|line|, PAGE)] == LineSends(line, t0);
  }

  /** One more line extends the schedule by that line's timers, from the running delay. */
  lemma {:induction false} PrefixSnoc(lines: seq<JsString>, i: nat)
    requires i < |lines|
    ensures SendsOf(lines[..i + 1]) == SendsOf(lines[..i]) + LineSends(lines[i], EndOf(lines[..i]))
    ensures EndOf(lines[..i + 1]) == LineEnd(lines[i], EndOf(lines[..i]))
  {
    assert lines[..i + 1][..i] == lines[..i];
  }

  // ------------------------------------------------------------ properties

  /** Splitting loses nothing: the lines, each followed by `\n`, are the code plus `\n`. */
  lemma {:induction false} SplitJoin(s: JsString)
    ensures Terminated(Split(s)) == s + [LF]
  {
    if s != [] {
      SplitJoin(s[1..]);
      var rest := Split(s[1..]);
      if s[0] == LF {
        assert ([[]] + rest)[1..] == rest;
      } else {
        TerminatedCons(s[0], rest);
        assert s == [s[0]] + s[1..];
      }
    }
  }

  /** Prepending a unit to the first line prepends it to the terminated text. */
  lemma {:induction false} TerminatedCons(c: CodeUnit, lines: seq<JsString>)
    requires |lines| >= 1
    ensures Terminated([[c] + lines[0]] + lines[1..]) == [c] + Terminated(lines)
  {
    var joined := [[c] + lines[0]] + lines[1..];
    var later := Terminated(lines[1..]);
    assert joined[0] == [c] + lines[0] && joined[1..] == lines[1..];
    assert Terminated(joined) == ([c] + lines[0]) + [LF] + later;
    assert Terminated(lines) == lines[0] + [LF] + later;
    assert ([c] + lines[0]) + [LF] + later == [c] + (lines[0] + [LF] + later);
  }

  /** No line of the split contains `\n`. */
  lemma {:induction false} SplitLinesHaveNoNewline(s: JsString)
    ensures forall i, k :: 0 <= i < |Split(s)| && 0 <= k < |Split(s)[i]| ==> Split(s)[i][k] != LF
  {
    if s != [] {
      SplitLinesHaveNoNewline(s[1..]);
      var rest := Split(s[1..]);
      if s[0] == LF {
        assert ([[]] + rest)[1..] == rest;
      } else {
        var lines := Split(s);
        forall i, k | 0 <= i < |lines| && 0 <= k < |lines[i]|
          ensures lines[i][k] != LF
        {
          if i == 0 && k > 0 {
            assert lines[0][k] == rest[0][k - 1];
          } else if i > 0 {
            assert lines[i] == rest[i];
          }
        }
      }
    }
  }

  /** The delays never decrease, and the running delay is that of the last send. */
  lemma {:induction false} SendsOrdered(lines: seq<JsString>)
    ensures var s := SendsOf(lines);
      && (forall i, j :: 0 <= i <= j < |s| ==> s[i].at <= s[j].at)
      && (forall i :: 0 <= i < |s| ==> s[i].at <= EndOf(lines))
      && (lines != [] ==> s != [] && s[|s| - 1].at == EndOf(lines))
  {
    if lines != [] {
      var init := lines[..|lines| - 1];
      var t := EndOf(init);
      SendsOrdered(init);
      LineSendsOrdered(lines[|lines| - 1], t);
      var a, b := SendsOf(init), LineSends(lines[|lines| - 1], t);
      assert SendsOf(lines) == a + b;
      forall i | 0 <= i < |a| ensures a[i].at <= t { }
    }
  }

  lemma {:induction false} LineSendsOrdered(line: JsString, t: nat)
    ensures var s := LineSends(line, t);
      && s != []
      && (forall i, j :: 0 <= i <= j < |s| ==> t <= s[i].at <= s[j].at)
      && s[|s| - 1].at == LineEnd(line, t)
  {
  }

  /**
   * The completion timer fires 100 ms after the last send, hence after every
   * send, so raw mode is left only once the whole code has gone out.
   */
  lemma {:induction false} CompletionAfterSends(code: JsString)
    ensures var s := SendsOf(Split(code));
      && s != []
      && EndOf(Split(code)) + COMPLETION_DELAY == s[|s| - 1].at + COMPLETION_DELAY
      && (forall i :: 0 <= i < |s| ==> s[i].at < EndOf(Split(code)) + COMPLETION_DELAY)
  {
    SendsOrdered(Split(code));
  }

  /**
   * The pieces of a long line cover it exactly once and in order, although
   * the count is taken with 80 and the slices with 1024: `ceil(n / 80)`
   * slices of 1024 always reach past the end.
   */
  lemma {:induction false} LongLinePayloads(line: JsString, t: nat)
    requires |line| >= PAGE
    ensures Flatten(Payloads(LineSends(line, t))) == line
  {
    var n := CeilDiv(|line|, PAGE);
    SlicesCover(line, n);
    assert n * SLICE >= |line|;
    assert Payloads(LineSends(line, t)) == seq(n, j requires 0 <= j < n => Substr(line, j * SLICE, SLICE));
    assert line[..|line|] == line;
  }

  lemma {:induction false} SlicesCover(line: JsString, k: nat)
    ensures Flatten(seq(k, j requires 0 <= j < k => Substr(line, j * SLICE, SLICE)))
         == line[..if k * SLICE <= |line| then k * SLICE else |line|]
  {
    if k > 0 {
      SlicesCover(line, k - 1);
      var pre := seq(k - 1, j requires 0 <= j < k - 1 => Substr(line, j * SLICE, SLICE));
      assert seq(k, j requires 0 <= j < k => Substr(line, j * SLICE, SLICE))
          == pre + [Substr(line, (k - 1) * SLICE, SLICE)];
      FlattenAppend(pre, [Substr(line, (k - 1) * SLICE, SLICE)]);
      assert Flatten([Substr(line, (k - 1) * SLICE, SLICE)]) == Substr(line, (k - 1) * SLICE, SLICE);
    }
  }

  /**
   * The 80/1024 mismatch as written: a line of 80 to 1024 units goes out
   * whole in the first timer, and each of the remaining ones sends "".
   */
  lemma {:induction false} MidLengthLineSlices(line: JsString, t: nat)
    requires PAGE <= |line| <= SLICE
    ensures var s := LineSends(line, t);
      && |s| == CeilDiv(|line|, PAGE) >= 1
      && s[0].payload == line
      && (forall j :: 1 <= j < |s| ==> s[j].payload == [])
  {
  }

  /** What one line puts on the wire: `\n`-terminated if short, bare if long. */
  function LineText(line: JsString): JsString
  {
    if |line| < PAGE then line + [LF] else line
  }

  /** The text the device receives, line by line. */
  function Delivered(lines: seq<JsString>): JsString
  {
    if lines == [] then [] else Delivered(lines[..|lines| - 1]) + LineText(lines[|lines| - 1])
  }

  lemma {:induction false} PayloadsAppend(a: seq<Send>, b: seq<Send>)
    ensures Payloads(a + b) == Payloads(a) + Payloads(b)
  {
  }

  /** The payloads of all the timers, concatenated, are the delivered text. */
  lemma {:induction false} SendsDeliver(lines: seq<JsString>)
    ensures Flatten(Payloads(SendsOf(lines))) == Delivered(lines)
  {
    if lines != [] {
      var init, last := lines[..|lines| - 1], lines[|lines| - 1];
      var b := LineSends(last, EndOf(init));
      SendsDeliver(init);
      PayloadsAppend(SendsOf(init), b);
      FlattenAppend(Payloads(SendsOf(init)), Payloads(b));
      if |last| < PAGE {
        assert Flatten(Payloads(b)) == last + [LF] by {
          assert Payloads(b) == [last + [LF]];
        }
      } else {
        LongLinePayloads(last, EndOf(init));
      }
    }
  }

  lemma {:induction false} TerminatedSnoc(lines: seq<JsString>, last: JsString)
    ensures Terminated(lines + [last]) == Terminated(lines) + last + [LF]
  {
    if lines != [] {
      assert (lines + [last])[1..] == lines[1..] + [last];
      TerminatedSnoc(lines[1..], last);
    } else {
      assert Terminated([last]) == last + [LF] + Terminated([]);
    }
  }

  /** The number of lines that take the long-line branch. */
  function LongLines(lines: seq<JsString>): nat
  {
    if lines == [] then 0
    else LongLines(lines[..|lines| - 1]) + (if |lines[|lines| - 1]| < PAGE then 0 else 1)
  }

  /**
   * The device receives the lines with `\n` after each short one and none
   * after a long one: one newline fewer per long line than the code has.
   */
  lemma {:induction false} DeliveredText(lines: seq<JsString>)
    ensures |Delivered(lines)| + LongLines(lines) == |Terminated(lines)|
    ensures LongLines(lines) == 0 ==> Delivered(lines) == Terminated(lines)
  {
    if lines != [] {
      var init, last := lines[..|lines| - 1], lines[|lines| - 1];
      DeliveredText(init);
      assert init + [last] == lines;
      TerminatedSnoc(init, last);
    }
  }

  /**
   * `execute` delivers the code, plus a final `\n`, exactly when no line is
   * 80 units or longer; otherwise the device sees the long lines fused with
   * the line after them.
   */
  lemma {:induction false} ExecuteDelivers(code: JsString)
    ensures var lines := Split(code);
      && (LongLines(lines) == 0 ==> Flatten(Payloads(SendsOf(lines))) == code + [LF])
      && (LongLines(lines) > 0 ==> |Flatten(Payloads(SendsOf(lines)))| < |code| + 1)
  {
    SplitJoin(code);
    SendsDeliver(Split(code));
    DeliveredText(Split(code));
  }
}
