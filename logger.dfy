/**
  The pure helpers of src/logger.ts: `parseTime` (a duration in milliseconds
  as "Nms", "Ys" or "Xm Ys"), the folds `getMax` and `getMin`, and `formatPath`
  with `colorMove` (one coloured arrow per move). The two renderings are each
  paired with a reader that recovers what was printed; the folds are described
  by bounds and membership.
 */
module Logger {
  import opened Wrappers
  import opened Types

  // ---------------------------------------------------------------------------
  // Decimal numerals, as JavaScript prints an integer in a template string

  predicate IsDigit(c: char) {
    '0' <= c <= '9'
  }

  predicate AllDigits(s: string) {
    forall i :: 0 <= i < |s| ==> IsDigit(s[i])
  }

  function DigitChar(d: nat): (c: char)
    requires d < 10
    ensures IsDigit(c) && c as int - '0' as int == d
  {
    "0123456789"[d]
  }

  /** The decimal numeral of `n`, without leading zeros. */
  function NatToString(n: nat): (s: string)
    ensures |s| >= 1 && AllDigits(s)
    ensures s[0] == '0' <==> n == 0
    decreases n
  {
    if n < 10 then [DigitChar(n)] else NatToString(n / 10) + [DigitChar(n % 10)]
  }

  /** `${i}` for an integer `i`. */
  function IntToString(i: int): string {
    if i < 0 then "-" + NatToString(-i) else NatToString(i)
  }

  /** The value of a string of digits. */
  function DigitsValue(s: string): nat
    requires AllDigits(s)
  {
    if s == [] then 0 else DigitsValue(s[..|s| - 1]) * 10 + (s[|s| - 1] as int - '0' as int)
  }

  lemma {:induction false} NatToStringValue(n: nat)
    ensures DigitsValue(NatToString(n)) == n
    decreases n
  {
    if n >= 10 {
      NatToStringValue(n / 10);
      var s := NatToString(n);
      assert s[..|s| - 1] == NatToString(n / 10);
    }
  }

  /** A decimal numeral without leading zeros ("0" itself included). */
  function ReadNat(s: string): Option<nat> {
    if |s| >= 1 && AllDigits(s) && (|s| == 1 || s[0] != '0') then Some(DigitsValue(s)) else None
  }

  function ReadInt(s: string): Option<int> {
    if |s| >= 1 && s[0] == '-' then
      match ReadNat(s[1..])
      case Some(v) => if v == 0 then None else Some(-(v as int))
      case None => None
    else
      match ReadNat(s)
      case Some(v) => Some(v as int)
      case None => None
  }

  /** A numeral reads back as its value. */
  lemma NumeralRead(n: nat)
    ensures ReadNat(NatToString(n)) == Some(n)
  {
    NatToStringValue(n);
  }

  lemma IntToStringRead(i: int)
    ensures ReadInt(IntToString(i)) == Some(i)
  {
    if i < 0 {
      var n := NatToString(-i);
      NumeralRead(-i);
      var s := "-" + n;
      assert s[0] == '-' && s[1..] == n;
    } else {
      var n := NatToString(i);
      NumeralRead(i);
      assert IsDigit(n[0]);
    }
  }

  /** Digits that do not start with '0' are worth at least 1. */
  lemma {:induction false} LeadingValue(s: string)
    requires |s| >= 1 && AllDigits(s) && s[0] != '0'
    ensures DigitsValue(s) >= 1
  {
    if |s| > 1 {
      LeadingValue(s[..|s| - 1]);
    }
  }

  /** The reader accepts only the numeral the printer gives: no padding, no "-0". */
  lemma {:induction false} ReadNatCanonical(s: string)
    ensures ReadNat(s).Some? ==> s == NatToString(ReadNat(s).value)
    decreases |s|
  {
    if ReadNat(s).Some? {
      var n := ReadNat(s).value;
      if |s| == 1 {
        assert s[..0] == [] && IsDigit(s[0]);
        assert n == DigitsValue(s) == DigitsValue(s[..0]) * 10 + (s[0] as int - '0' as int);
        assert DigitChar(n) as int == s[0] as int;
      } else {
        var init := s[..|s| - 1];
        LeadingValue(init);
        assert ReadNat(init) == Some(DigitsValue(init));
        ReadNatCanonical(init);
        LeadingValue(s);
        assert n / 10 == DigitsValue(init) && n % 10 == s[|s| - 1] as int - '0' as int;
        assert DigitChar(n % 10) as int == s[|s| - 1] as int;
        assert s == init + [s[|s| - 1]];
      }
    }
  }

  lemma ReadIntCanonical(s: string)
    ensures ReadInt(s).Some? ==> s == IntToString(ReadInt(s).value)
  {
    if |s| >= 1 && s[0] == '-' {
      ReadNatCanonical(s[1..]);
      if ReadNat(s[1..]).Some? && ReadNat(s[1..]).value != 0 {
        var v := ReadNat(s[1..]).value;
        assert ReadInt(s) == Some(-(v as int));
        assert IntToString(-(v as int)) == "-" + NatToString(v);
        assert s == "-" + s[1..];
      }
    } else if ReadNat(s).Some? {
      ReadNatCanonical(s);
      assert ReadInt(s) == Some(ReadNat(s).value as int);
    }
  }

  /** The first position of `c` in `s`, or `|s|` when there is none. */
  function FirstIndexOf(s: string, c: char): (k: nat)
    ensures k <= |s|
    ensures k == |s| <==> c !in s
    ensures k < |s| ==> s[k] == c
    ensures forall j :: 0 <= j < k ==> s[j] != c
  {
    if s == [] then 0 else if s[0] == c then 0 else 1 + FirstIndexOf(s[1..], c)
  }

  // ---------------------------------------------------------------------------
  // parseTime

  /**
    `parseTime(time)`: below a second in milliseconds, else whole minutes and
    seconds. Every rendering ends in a unit "s", and the unit is "ms" exactly
    below a second.
   */
  function ParseTime(time: int): (r: string)
    ensures |r| >= 2 && r[|r| - 1] == 's'
    ensures r[|r| - 2] == 'm' <==> time < 1000
  {
    if time < 1000 then IntToString(time) + "ms"
    else
      var seconds := time / 1000;
      var minutes := seconds / 60;
      var seconds := seconds % 60;
      if minutes != 0 then NatToString(minutes) + "m " + NatToString(seconds) + "s"
      else NatToString(seconds) + "s"
  }

  /** What a rendered duration says. */
  datatype Reading = Millis(ms: int) | Clock(minutes: nat, seconds: nat)

  /** Reads back the three shapes `parseTime` produces. */
  function ReadTime(s: string): Option<Reading> {
    if |s| >= 2 && s[|s| - 2..] == "ms" then ReadMillis(s[..|s| - 2])
    else if |s| >= 1 && s[|s| - 1] == 's' then ReadClock(s[..|s| - 1])
    else None
  }

  /** "N" before "ms". */
  function ReadMillis(body: string): Option<Reading> {
    match ReadInt(body)
    case Some(v) => Some(Millis(v))
    case None => None
  }

  /** "Y" or "Xm Y" before the final "s". */
  function ReadClock(body: string): Option<Reading> {
    var k := FirstIndexOf(body, ' ');
    if k == |body| then
      match ReadNat(body)
      case Some(sec) => Some(Clock(0, sec))
      case None => None
    else if k >= 1 && body[k - 1] == 'm' then
      match (ReadNat(body[..k - 1]), ReadNat(body[k + 1..]))
      case (Some(m), Some(sec)) => Some(Clock(m, sec))
      case _ => None
    else None
  }

  lemma ReadTimeMillis(body: string)
    ensures ReadTime(body + "ms") == ReadMillis(body)
  {
    var s := body + "ms";
    assert s[|s| - 2..] == "ms" && s[..|s| - 2] == body;
  }

  lemma ReadTimeClock(body: string)
    requires |body| >= 1 && body[|body| - 1] != 'm'
    ensures ReadTime(body + "s") == ReadClock(body)
  {
    var s := body + "s";
    assert s[|s| - 2] == body[|body| - 1];
    assert s[..|s| - 1] == body;
  }

  lemma ReadClockSeconds(seconds: nat)
    ensures ReadClock(NatToString(seconds)) == Some(Clock(0, seconds))
  {
    var sec := NatToString(seconds);
    NumeralRead(seconds);
    assert ' ' !in sec by {
      forall j | 0 <= j < |sec| ensures sec[j] != ' ' {
        assert IsDigit(sec[j]);
      }
    }
  }

  lemma ReadClockMinutes(minutes: nat, seconds: nat)
    ensures ReadClock(NatToString(minutes) + "m " + NatToString(seconds)) == Some(Clock(minutes, seconds))
  {
    var min, sec := NatToString(minutes), NatToString(seconds);
    NumeralRead(minutes);
    NumeralRead(seconds);
    var body := min + "m " + sec;
    assert FirstIndexOf(body, ' ') == |min| + 1 by {
      assert body[|min| + 1] == ' ';
      forall j | 0 <= j < |min| + 1 ensures body[j] != ' ' {
        if j < |min| {
          assert body[j] == min[j] && IsDigit(min[j]);
        }
      }
    }
    assert body[|min|] == 'm';
    assert body[..|min|] == min;
    assert body[|min| + 2..] == sec;
  }

  /** Below a second the duration is printed as is, followed by "ms". */
  lemma ParseTimeMillis(time: int)
    requires time < 1000
    ensures ReadTime(ParseTime(time)) == Some(Millis(time))
  {
    ReadTimeMillis(IntToString(time));
    IntToStringRead(time);
  }

  /**
    From a second on, the printed minutes and seconds account for every whole
    second exactly once, the seconds stay below 60, and the minutes are printed
    exactly when there is at least one.
   */
  lemma ParseTimeClock(time: int)
    requires time >= 1000
    ensures ReadTime(ParseTime(time)).Some?
    ensures var c := ReadTime(ParseTime(time)).value;
            && c.Clock?
            && c.minutes * 60 + c.seconds == time / 1000
            && c.seconds < 60
            && (c.minutes != 0 <==> time >= 60000)
    ensures 'm' in ParseTime(time) <==> time >= 60000
  {
    var total := time / 1000;
    var minutes, seconds := total / 60, total % 60;
    assert minutes != 0 <==> time >= 60000;
    var sec := NatToString(seconds);
    var s := ParseTime(time);
    if minutes != 0 {
      var body := NatToString(minutes) + "m " + sec;
      assert s == body + "s";
      assert body[|body| - 1] == sec[|sec| - 1];
      ReadTimeClock(body);
      ReadClockMinutes(minutes, seconds);
      assert s[|NatToString(minutes)|] == 'm';
    } else {
      assert s == sec + "s";
      ReadTimeClock(sec);
      ReadClockSeconds(seconds);
      assert 'm' !in s by {
        forall j | 0 <= j < |s| ensures s[j] != 'm' {
          if j < |sec| {
            assert s[j] == sec[j] && IsDigit(sec[j]);
          }
        }
      }
    }
  }

  // ---------------------------------------------------------------------------
  // getMax and getMin

  /** A number of the folds: the seeds -Infinity and Infinity, or an integer. */
  datatype Extended = NegInf | Fin(n: int) | PosInf

  predicate LessEq(a: Extended, b: Extended) {
    a == NegInf || b == PosInf || (a.Fin? && b.Fin? && a.n <= b.n)
  }

  /** `Math.max(acc, v)`. */
  function MathMax(acc: Extended, v: int): Extended {
    match acc
    case NegInf => Fin(v)
    case Fin(a) => Fin(Max(a, v))
    case PosInf => PosInf
  }

  /** `Math.min(acc, v)`. */
  function MathMin(acc: Extended, v: int): Extended {
    match acc
    case NegInf => NegInf
    case Fin(a) => Fin(Min(a, v))
    case PosInf => Fin(v)
  }

  /** `values.reduce((a, b) => Math.max(a, b), acc)`. */
  function FoldMax(acc: Extended, values: seq<int>): (r: Extended)
    decreases |values|
    ensures LessEq(acc, r)
    ensures forall v :: v in values ==> LessEq(Fin(v), r)
    ensures r == acc || exists i :: 0 <= i < |values| && r == Fin(values[i])
  {
    if values == [] then acc
    else
      var r := FoldMax(MathMax(acc, values[0]), values[1..]);
      assert forall v :: v in values ==> v == values[0] || v in values[1..];
      assert forall i :: 0 <= i < |values[1..]| ==> values[1..][i] == values[i + 1];
      r
  }

  /** `values.reduce((a, b) => Math.min(a, b), acc)`. */
  function FoldMin(acc: Extended, values: seq<int>): (r: Extended)
    decreases |values|
    ensures LessEq(r, acc)
    ensures forall v :: v in values ==> LessEq(r, Fin(v))
    ensures r == acc || exists i :: 0 <= i < |values| && r == Fin(values[i])
  {
    if values == [] then acc
    else
      var r := FoldMin(MathMin(acc, values[0]), values[1..]);
      assert forall v :: v in values ==> v == values[0] || v in values[1..];
      assert forall i :: 0 <= i < |values[1..]| ==> values[1..][i] == values[i + 1];
      r
  }

  /** `getMax`: at least every value; one of them, or -Infinity for none. */
  function GetMax(allValues: seq<int>): (r: Extended)
    ensures forall v :: v in allValues ==> LessEq(Fin(v), r)
    ensures allValues == [] ==> r == NegInf
    ensures allValues != [] ==> exists i :: 0 <= i < |allValues| && r == Fin(allValues[i])
  {
    FoldMax(NegInf, allValues)
  }

  /** `getMin`: at most every value; one of them, or Infinity for none. */
  function GetMin(allValues: seq<int>): (r: Extended)
    ensures forall v :: v in allValues ==> LessEq(r, Fin(v))
    ensures allValues == [] ==> r == PosInf
    ensures allValues != [] ==> exists i :: 0 <= i < |allValues| && r == Fin(allValues[i])
  {
    FoldMin(PosInf, allValues)
  }

  // ---------------------------------------------------------------------------
  // formatPath and colorMove

  const Blue: string := "\U{1b}[1;36m"
  const Yellow: string := "\U{1b}[1;33m"
  const Violet: string := "\U{1b}[35;1m"
  const Red: string := "\U{1b}[31;1m"
  const Reset: string := "\U{1b}[0m"

  /** `colorMove`: the move's arrow between its colour and the reset code. */
  function ColorMove(move: Move): (r: string)
    ensures |r| > 0 && ' ' !in r
  {
    match move
    case Left => Yellow + "\U{2190}" + Reset
    case Right => Violet + "\U{2192}" + Reset
    case Up => Blue + "\U{2191}" + Reset
    case Down => Red + "\U{2193}" + Reset
  }

  /** `tokens.join(' ')`. */
  function Join(tokens: seq<string>): string {
    if tokens == [] then ""
    else if |tokens| == 1 then tokens[0]
    else tokens[0] + " " + Join(tokens[1..])
  }

  /**
    `formatPath`: the arrows of the moves, in path order, separated by single
    spaces. Only the empty path prints as nothing, and the first move's arrow
    comes first.
   */
  function FormatPath(path: seq<Move>): (r: string)
    ensures r == "" <==> path == []
    ensures path != [] ==> |ColorMove(path[0])| <= |r| && r[..|ColorMove(path[0])|] == ColorMove(path[0])
  {
    Join(seq(|path|, i requires 0 <= i < |path| => ColorMove(path[i])))
  }

  /** Cuts a string at every space. */
  function Split(s: string): (r: seq<string>)
    ensures |r| >= 1
    decreases |s|
  {
    var k := FirstIndexOf(s, ' ');
    if k == |s| then [s] else [s[..k]] + Split(s[k + 1..])
  }

  /** Joining space-free tokens and cutting at the spaces gives the tokens back. */
  lemma {:induction false} SplitJoin(tokens: seq<string>)
    requires tokens != []
    requires forall t :: t in tokens ==> ' ' !in t
    ensures Split(Join(tokens)) == tokens
  {
    var t := tokens[0];
    assert FirstIndexOf(t, ' ') == |t|;
    if |tokens| > 1 {
      var s := Join(tokens);
      assert s == t + " " + Join(tokens[1..]);
      assert FirstIndexOf(s, ' ') == |t| by {
        assert s[|t|] == ' ';
        forall j | 0 <= j < |t| ensures s[j] != ' ' {
          assert s[j] == t[j];
        }
      }
      assert s[..|t|] == t;
      assert s[|t| + 1..] == Join(tokens[1..]);
      SplitJoin(tokens[1..]);
    }
  }

  /** The move whose arrow token `token` is. */
  function ReadMove(token: string): Option<Move> {
    if token == ColorMove(Up) then Some(Up)
    else if token == ColorMove(Left) then Some(Left)
    else if token == ColorMove(Right) then Some(Right)
    else if token == ColorMove(Down) then Some(Down)
    else None
  }

  /** Distinct moves get distinct tokens, so each token names its move. */
  lemma ReadColorMove(m: Move)
    ensures ReadMove(ColorMove(m)) == Some(m)
  {
    var up, left, right, down := ColorMove(Up), ColorMove(Left), ColorMove(Right), ColorMove(Down);
    assert up[7] != left[7] && up[7] != right[7] && up[7] != down[7];
    assert left[7] != right[7] && left[7] != down[7] && right[7] != down[7];
  }

  function ReadMoves(tokens: seq<string>): Option<seq<Move>> {
    if tokens == [] then Some([])
    else
      match (ReadMove(tokens[0]), ReadMoves(tokens[1..]))
      case (Some(m), Some(ms)) => Some([m] + ms)
      case _ => None
  }

  /** Reads a formatted path back into its moves. */
  function ParsePath(s: string): Option<seq<Move>> {
    if s == "" then Some([]) else ReadMoves(Split(s))
  }

  /**
    `formatPath` loses nothing: there is one token per move, in path order,
    and reading the tokens back gives the path.
   */
  lemma {:induction false} FormatPathRoundTrip(path: seq<Move>)
    ensures path != [] ==> |Split(FormatPath(path))| == |path|
    ensures path != [] ==> forall i :: 0 <= i < |path| ==> Split(FormatPath(path))[i] == ColorMove(path[i])
    ensures ParsePath(FormatPath(path)) == Some(path)
  {
    var tokens := seq(|path|, i requires 0 <= i < |path| => ColorMove(path[i]));
    if path != [] {
      SplitJoin(tokens);
      assert FormatPath(path) != "" by {
        if |tokens| == 1 {
          assert Join(tokens) == tokens[0];
        } else {
          assert Join(tokens) == tokens[0] + " " + Join(tokens[1..]);
        }
      }
      ReadAll(path, tokens);
    }
  }

  lemma {:induction false} ReadAll(path: seq<Move>, tokens: seq<string>)
    requires |tokens| == |path|
    requires forall i :: 0 <= i < |path| ==> tokens[i] == ColorMove(path[i])
    ensures ReadMoves(tokens) == Some(path)
  {
    if path != [] {
      ReadColorMove(path[0]);
      ReadAll(path[1..], tokens[1..]);
      assert path == [path[0]] + path[1..];
    }
  }
}
