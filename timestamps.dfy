/** The timestamp normaliser of app.py (`parse_timestamp`): a chain of
    attempts over the calendar routines of Python's `datetime`, where the
    first attempt that succeeds gives the result. The calendar routines
    themselves are not modelled; they are the partial oracles of `Calendar`. */
module Timestamps {
  import opened Common

  /** A calendar date; `strftime('%Y-%m-%d')` renders it as the histogram key. */
  datatype Date = Date(year: int, month: int, day: int)

  /** A `datetime` value: its date and its time of day. */
  datatype DateTime = DateTime(date: Date, hour: int, minute: int, second: int, microsecond: int)

  /** The value handed to the normaliser: `None`, a number (an `int`, a
      `float` or a `bool`), a string, a list or dict (`nonEmpty` gives its
      truth value), or a `datetime` object. */
  datatype RawTime =
    | Null
    | Num(x: real)
    | Str(s: string)
    | Container(nonEmpty: bool)
    | Moment(dt: DateTime)

  /** The calendar routines the normaliser calls, each a partial function
      whose `None` stands for the exception it raises:
      - fromTimestamp: `datetime.fromtimestamp` (ValueError, OSError or OverflowError)
      - perThousand: the float division `x / 1000` (OverflowError)
      - toFloat: `float(s)` on a digit string with at most one '.' (never raises there)
      - fromIsoFormat: `datetime.fromisoformat` (ValueError)
      - strptime: `datetime.strptime(s, format)` (ValueError) */
  datatype Calendar = Calendar(
    fromTimestamp: real -> Option<DateTime>,
    perThousand: real -> Option<real>,
    toFloat: string -> real,
    fromIsoFormat: string -> Option<DateTime>,
    strptime: (string, string) -> Option<DateTime>)

  /** The fixed date patterns, in the order they are tried. */
  const Formats: seq<string> := ["%Y-%m-%d", "%Y-%m-%d %H:%M:%S", "%Y/%m/%d", "%Y/%m/%d %H:%M:%S"]

  /** Python truthiness of a timestamp value (`if create_time:`). */
  predicate Truthy(t: RawTime)
  {
    match t
    case Null => false
    case Num(x) => x != 0.0
    case Str(s) => s != ""
    case Container(nonEmpty) => nonEmpty
    case Moment(_) => true
  }

  predicate IsDigit(c: char) { '0' <= c <= '9' }

  /** `s.replace('.', '')` */
  function DropDots(s: string): (r: string)
    ensures |r| == |s| - DotCount(s)
    ensures '.' !in r
    ensures forall c :: c in r ==> c in s
    ensures forall c :: c in s && c != '.' ==> c in r
  {
    if s == [] then []
    else (if s[0] == '.' then [] else [s[0]]) + DropDots(s[1..])
  }

  /** The number of '.' characters in `s`. */
  function DotCount(s: string): (n: nat)
    ensures n <= |s|
  {
    if s == [] then 0 else (if s[0] == '.' then 1 else 0) + DotCount(s[1..])
  }

  /** `s.replace('.', '').isdigit()`: at least one character is left and
      every character left is a digit. */
  predicate LooksNumeric(s: string)
  {
    var d := DropDots(s);
    |d| > 0 && forall i :: 0 <= i < |d| ==> IsDigit(d[i])
  }

  /** `s.replace('Z', '+00:00')`: every 'Z' becomes an explicit UTC offset. */
  function ReplaceZ(s: string): (r: string)
    ensures 'Z' !in r
    ensures 'Z' !in s ==> r == s
    ensures |r| == |s| + 5 * Occurrences(s, 'Z')
  {
    if s == [] then []
    else (if s[0] == 'Z' then "+00:00" else [s[0]]) + ReplaceZ(s[1..])
  }

  function Occurrences(s: string, c: char): nat
  {
    if s == [] then 0 else (if s[0] == c then 1 else 0) + Occurrences(s[1..], c)
  }

  /** A string passes the digit test exactly when some character is not a
      dot and every character that is not a dot is a digit. */
  lemma LooksNumericChars(s: string)
    ensures LooksNumeric(s) <==>
      (exists i :: 0 <= i < |s| && s[i] != '.') && forall i :: 0 <= i < |s| && s[i] != '.' ==> IsDigit(s[i])
  {
    var d := DropDots(s);
    if LooksNumeric(s) {
      assert d[0] in s;
      forall i | 0 <= i < |s| && s[i] != '.'
        ensures IsDigit(s[i])
      {
        assert s[i] in d;
      }
    } else if exists i :: 0 <= i < |s| && s[i] != '.' {
      var i :| 0 <= i < |s| && s[i] != '.';
      assert s[i] in d;
      var k :| 0 <= k < |d| && !IsDigit(d[k]);
      assert d[k] in s;
    }
  }

  /** The rewrite works character by character: it distributes over
      concatenation, turns a 'Z' into "+00:00" and keeps any other character. */
  lemma {:induction false} ReplaceZConcat(a: string, b: string)
    ensures ReplaceZ(a + b) == ReplaceZ(a) + ReplaceZ(b)
  {
    if a == [] {
      assert a + b == b;
    } else {
      assert (a + b)[1..] == a[1..] + b;
      ReplaceZConcat(a[1..], b);
    }
  }

  lemma ReplaceZChar(c: char)
    ensures c == 'Z' ==> ReplaceZ([c]) == "+00:00"
    ensures c != 'Z' ==> ReplaceZ([c]) == [c]
  {
    assert [c][1..] == [];
  }

  /** `r` is what a chain of `attempts` gives when the first attempt that
      succeeds wins, and no result at all when every attempt fails. */
  ghost predicate IsFirstSuccess(attempts: seq<Option<DateTime>>, r: Option<DateTime>)
  {
    match r
    case None => forall k :: 0 <= k < |attempts| ==> attempts[k].None?
    case Some(_) =>
      exists k :: 0 <= k < |attempts| && attempts[k] == r && forall j :: 0 <= j < k ==> attempts[j].None?
  }

  /** The attempt made on `x` as milliseconds: `fromtimestamp(x / 1000)`. */
  function AsMillis(cal: Calendar, x: real): Option<DateTime>
  {
    match cal.perThousand(x)
    case None => None
    case Some(y) => cal.fromTimestamp(y)
  }

  /** A number read as seconds since the epoch, and only when that raises,
      as milliseconds. */
  function FromEpoch(cal: Calendar, x: real): (r: Option<DateTime>)
    ensures IsFirstSuccess([cal.fromTimestamp(x), AsMillis(cal, x)], r)
  {
    var attempts := [cal.fromTimestamp(x), AsMillis(cal, x)];
    match cal.fromTimestamp(x)
    case Some(dt) => assert attempts[0] == Some(dt); Some(dt)
    case None => assert attempts[1] == AsMillis(cal, x); AsMillis(cal, x)
  }

  /** The `strptime` attempts of `s` against each of `fmts`, in order. */
  function PatternAttempts(cal: Calendar, s: string, fmts: seq<string>): (a: seq<Option<DateTime>>)
    ensures |a| == |fmts|
    ensures forall k :: 0 <= k < |fmts| ==> a[k] == cal.strptime(s, fmts[k])
  {
    if fmts == [] then [] else [cal.strptime(s, fmts[0])] + PatternAttempts(cal, s, fmts[1..])
  }

  /** The loop over the date patterns: the first pattern that parses wins,
      and the later ones are not tried. */
  function FirstPattern(cal: Calendar, s: string, fmts: seq<string>): (r: Option<DateTime>)
    ensures IsFirstSuccess(PatternAttempts(cal, s, fmts), r)
  {
    if fmts == [] then None
    else match cal.strptime(s, fmts[0])
      case Some(dt) => Some(dt)
      case None =>
        var r := FirstPattern(cal, s, fmts[1..]);
        FirstSuccessShift(cal.strptime(s, fmts[0]), PatternAttempts(cal, s, fmts[1..]), r);
        r
  }

  /** A failed attempt in front of a chain does not change which attempt wins. */
  lemma FirstSuccessShift(first: Option<DateTime>, rest: seq<Option<DateTime>>, r: Option<DateTime>)
    requires first.None?
    requires IsFirstSuccess(rest, r)
    ensures IsFirstSuccess([first] + rest, r)
  {
    var a := [first] + rest;
    match r
    case None =>
      assert forall k :: 1 <= k < |a| ==> a[k] == rest[k - 1];
    case Some(_) =>
      var k :| 0 <= k < |rest| && rest[k] == r && forall j :: 0 <= j < k ==> rest[j].None?;
      assert a[k + 1] == r;
      assert forall j :: 1 <= j < k + 1 ==> a[j] == rest[j - 1];
  }

  /** The attempts the normaliser makes on `t`, in the order it makes them.
      A digit string that `float` cannot convert makes none: it raises. */
  function Attempts(cal: Calendar, t: RawTime): seq<Option<DateTime>>
  {
    match t
    case Null => []
    case Moment(dt) => [Some(dt)]
    case Num(x) => [cal.fromTimestamp(x), AsMillis(cal, x)]
    case Str(s) =>
      if LooksNumeric(s) then
        if DotCount(s) <= 1 then
          var x := cal.toFloat(s);
          [cal.fromTimestamp(x), AsMillis(cal, x)]
        else []
      else [cal.fromIsoFormat(ReplaceZ(s))] + PatternAttempts(cal, s, Formats)
    case Container(_) => []
  }

  /** `parse_timestamp`. `None`, a list and a dict give no result; a
      `datetime` is returned unchanged; a number, or a digit string that
      `float` converts, is tried as seconds and then as milliseconds, and a
      digit string that fails both attempts is not then tried as a date
      string; any other string is tried as ISO-8601 and then against each
      of `Formats`. A digit string with two or more dots raises TypeError:
      `float` fails, and the millisecond retry divides the string itself. */
  function ParseTimestamp(cal: Calendar, t: RawTime): (r: Result<Option<DateTime>>)
    ensures t.Null? || t.Container? ==> r == Ok(None)
    ensures t.Moment? ==> r == Ok(Some(t.dt))
    ensures r.Raise? <==> t.Str? && LooksNumeric(t.s) && DotCount(t.s) > 1
    ensures r.Raise? ==> r.exc == TypeError
    ensures r.Ok? ==> IsFirstSuccess(Attempts(cal, t), r.value)
  {
    match t
    case Null => Ok(None)
    case Moment(dt) =>
      assert Attempts(cal, t)[0] == Some(dt);
      Ok(Some(dt))
    case Num(x) =>
      assert Attempts(cal, t) == [cal.fromTimestamp(x), AsMillis(cal, x)];
      Ok(FromEpoch(cal, x))
    case Str(s) =>
      if LooksNumeric(s) then
        if DotCount(s) <= 1 then
          var x := cal.toFloat(s);
          assert Attempts(cal, t) == [cal.fromTimestamp(x), AsMillis(cal, x)];
          Ok(FromEpoch(cal, x))
        else Raise(TypeError)
      else
        var chain := [cal.fromIsoFormat(ReplaceZ(s))] + PatternAttempts(cal, s, Formats);
        assert Attempts(cal, t) == chain;
        (match cal.fromIsoFormat(ReplaceZ(s))
         case Some(dt) =>
           assert chain[0] == Some(dt);
           Ok(Some(dt))
         case None =>
           var r := FirstPattern(cal, s, Formats);
           FirstSuccessShift(cal.fromIsoFormat(ReplaceZ(s)), PatternAttempts(cal, s, Formats), r);
           Ok(r))
    case Container(_) => Ok(None)
  }

  /** The winner of a chain of attempts is determined by the chain. */
  lemma FirstSuccessUnique(attempts: seq<Option<DateTime>>, r1: Option<DateTime>, r2: Option<DateTime>)
    requires IsFirstSuccess(attempts, r1) && IsFirstSuccess(attempts, r2)
    ensures r1 == r2
  {
    if r1.Some? && r2.Some? {
      var k1 :| 0 <= k1 < |attempts| && attempts[k1] == r1 && forall j :: 0 <= j < k1 ==> attempts[j].None?;
      var k2 :| 0 <= k2 < |attempts| && attempts[k2] == r2 && forall j :: 0 <= j < k2 ==> attempts[j].None?;
      assert !(k1 < k2) && !(k2 < k1);
    }
  }

  /** A number is read as seconds whenever `fromtimestamp` accepts it, and
      as milliseconds only when it does not. */
  lemma SecondsBeforeMillis(cal: Calendar, x: real)
    ensures cal.fromTimestamp(x).Some? ==> ParseTimestamp(cal, Num(x)) == Ok(cal.fromTimestamp(x))
    ensures cal.fromTimestamp(x).None? ==> ParseTimestamp(cal, Num(x)) == Ok(AsMillis(cal, x))
  {
    var r := ParseTimestamp(cal, Num(x));
    var a := Attempts(cal, Num(x));
    FirstSuccessUnique(a, r.value, if cal.fromTimestamp(x).Some? then cal.fromTimestamp(x) else AsMillis(cal, x));
  }

  /** A string that is not a digit string is tried as ISO-8601 (with 'Z'
      rewritten) first; only when that fails is it matched against the
      patterns, and the first pattern that parses wins. */
  lemma IsoBeforePatterns(cal: Calendar, s: string, k: nat)
    requires !LooksNumeric(s)
    requires k < |Formats|
    requires cal.fromIsoFormat(ReplaceZ(s)).None?
    requires cal.strptime(s, Formats[k]).Some?
    requires forall j :: 0 <= j < k ==> cal.strptime(s, Formats[j]).None?
    ensures ParseTimestamp(cal, Str(s)) == Ok(cal.strptime(s, Formats[k]))
  {
    var r := ParseTimestamp(cal, Str(s));
    var a := Attempts(cal, Str(s));
    assert a[k + 1] == cal.strptime(s, Formats[k]);
    assert forall j :: 1 <= j < k + 1 ==> a[j] == cal.strptime(s, Formats[j - 1]);
    assert IsFirstSuccess(a, cal.strptime(s, Formats[k]));
    FirstSuccessUnique(a, r.value, cal.strptime(s, Formats[k]));
  }

  /** A string is unparseable, and never raises, exactly when it is not a
      digit string and ISO-8601 and every pattern reject it. */
  lemma UnparseableString(cal: Calendar, s: string)
    requires !LooksNumeric(s)
    ensures ParseTimestamp(cal, Str(s)) == Ok(None) <==>
      cal.fromIsoFormat(ReplaceZ(s)).None? && forall k :: 0 <= k < |Formats| ==> cal.strptime(s, Formats[k]).None?
  {
    var a := Attempts(cal, Str(s));
    assert forall k :: 0 <= k < |Formats| ==> a[k + 1] == cal.strptime(s, Formats[k]);
  }
}
