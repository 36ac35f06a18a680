/** A recording is named after its local start time, `YYYY_MM_DD_hh_mm_ss`.
    This module reads the six calendar fields back out of such a name the
    way the viewer does: every `_` becomes `-`, the name is split on `-`,
    and each piece must be an integer. */
module RecordingName {
  import opened Wrappers

  // ---------------------------------------------------------------------------
  // Character replacement, splitting and joining

  /** Every occurrence of `from` replaced by `to`. */
  function ReplaceAll(s: string, from: char, to: char): (r: string)
    ensures |r| == |s|
    ensures forall i :: 0 <= i < |s| ==> r[i] == (if s[i] == from then to else s[i])
    ensures from != to ==> from !in r
  {
    if |s| == 0 then "" else [if s[0] == from then to else s[0]] + ReplaceAll(s[1..], from, to)
  }

  /** Splitting on one separator character: empty pieces are kept, so the
      result always has one more piece than `s` has separators. */
  function Split(s: string, sep: char): (r: seq<string>)
    ensures |r| >= 1
    ensures forall i :: 0 <= i < |r| ==> sep !in r[i]
  {
    if |s| == 0 then [""]
    else
      var rest := Split(s[1..], sep);
      if s[0] == sep then [""] + rest else [[s[0]] + rest[0]] + rest[1..]
  }

  /** The pieces glued back together with `sep` between neighbours. */
  function Join(parts: seq<string>, sep: char): string
    requires |parts| >= 1
  {
    if |parts| == 1 then parts[0] else parts[0] + [sep] + Join(parts[1..], sep)
  }

  /** Joining the pieces of a split gives back the original string. */
  lemma {:induction false} JoinSplit(s: string, sep: char)
    ensures Join(Split(s, sep), sep) == s
  {
    if |s| > 0 {
      JoinSplit(s[1..], sep);
      var rest := Split(s[1..], sep);
      if s[0] == sep {
        assert ([""] + rest)[1..] == rest;
      } else {
        var p := [[s[0]] + rest[0]] + rest[1..];
        assert p[1..] == rest[1..];
        assert s == [s[0]] + s[1..];
      }
    }
  }

  /** A string without the separator splits into itself alone. */
  lemma {:induction false} SplitSepFree(a: string, sep: char)
    requires sep !in a
    ensures Split(a, sep) == [a]
  {
    if |a| > 0 {
      SplitSepFree(a[1..], sep);
      assert [a[0]] + a[1..] == a;
    }
  }

  /** A separator-free head followed by the separator splits off as the first piece. */
  lemma {:induction false} SplitAfterPiece(a: string, b: string, sep: char)
    requires sep !in a
    ensures Split(a + [sep] + b, sep) == [a] + Split(b, sep)
  {
    var s := a + [sep] + b;
    if |a| == 0 {
      assert s == [sep] + b;
      assert s[1..] == b;
    } else {
      assert s[1..] == a[1..] + [sep] + b;
      SplitAfterPiece(a[1..], b, sep);
      assert [a[0]] + a[1..] == a;
    }
  }

  /** Splitting a join of separator-free pieces gives back exactly those pieces. */
  lemma {:induction false} SplitJoin(parts: seq<string>, sep: char)
    requires |parts| >= 1
    requires forall i :: 0 <= i < |parts| ==> sep !in parts[i]
    ensures Split(Join(parts, sep), sep) == parts
  {
    if |parts| == 1 {
      SplitSepFree(parts[0], sep);
    } else {
      SplitJoin(parts[1..], sep);
      SplitAfterPiece(parts[0], Join(parts[1..], sep), sep);
      assert [parts[0]] + parts[1..] == parts;
    }
  }

  /** Replacing a character that no piece contains, inside the separators
      only, is the same as joining with the new separator. */
  lemma {:induction false} ReplaceJoin(parts: seq<string>, from: char, to: char)
    requires |parts| >= 1
    requires forall i :: 0 <= i < |parts| ==> from !in parts[i]
    ensures ReplaceAll(Join(parts, from), from, to) == Join(parts, to)
  {
    var p0 := parts[0];
    assert ReplaceAll(p0, from, to) == p0;
    if |parts| > 1 {
      ReplaceJoin(parts[1..], from, to);
      ReplaceConcat(p0 + [from], Join(parts[1..], from), from, to);
      ReplaceConcat(p0, [from], from, to);
    }
  }

  lemma ReplaceConcat(a: string, b: string, from: char, to: char)
    ensures ReplaceAll(a + b, from, to) == ReplaceAll(a, from, to) + ReplaceAll(b, from, to)
  {
  }

  // ---------------------------------------------------------------------------
  // Integers

  predicate IsDigit(c: char) { '0' <= c <= '9' }

  /** One or more decimal digits. */
  predicate IsDigits(s: string) { |s| > 0 && forall i :: 0 <= i < |s| ==> IsDigit(s[i]) }

  /** The value of a string of decimal digits, most significant first. */
  function DigitsValue(s: string): nat
    requires forall i :: 0 <= i < |s| ==> IsDigit(s[i])
  {
    if |s| == 0 then 0 else DigitsValue(s[..|s| - 1]) * 10 + DigitValue(s[|s| - 1])
  }

  function DigitValue(c: char): nat
    requires IsDigit(c)
  {
    c as int - '0' as int
  }

  /** Python's `int(text)` on a piece of a recording name: an optional sign
      followed by at least one decimal digit; anything else is a `ValueError`. */
  function ParseInt(s: string): (r: Option<int>)
    ensures r.Some? <==> IsDigits(s) || (|s| > 0 && (s[0] == '+' || s[0] == '-') && IsDigits(s[1..]))
    ensures r.Some? && IsDigits(s) ==> r.value == DigitsValue(s)
    ensures r.Some? && !IsDigits(s) ==> r.value == if s[0] == '-' then 0 - DigitsValue(s[1..]) else DigitsValue(s[1..])
  {
    if |s| > 0 && (s[0] == '+' || s[0] == '-') then
      if IsDigits(s[1..]) then
        var v: int := DigitsValue(s[1..]);
        Some(if s[0] == '-' then -v else v)
      else None
    else if IsDigits(s) then Some(DigitsValue(s))
    else None
  }

  function DigitChar(d: nat): char
    requires d < 10
  {
    ('0' as int + d) as char
  }

  /** The shortest decimal rendering of a natural number. */
  function Decimal(n: nat): string {
    if n < 10 then [DigitChar(n)] else Decimal(n / 10) + [DigitChar(n % 10)]
  }

  /** The decimal rendering consists of digits whose value is the number. */
  lemma {:induction false} DecimalDigits(n: nat)
    ensures IsDigits(Decimal(n)) && DigitsValue(Decimal(n)) == n
  {
    if n >= 10 {
      DecimalDigits(n / 10);
      var s := Decimal(n);
      assert s[..|s| - 1] == Decimal(n / 10);
    }
  }

  function Zeros(k: nat): string {
    seq(k, _ => '0')
  }

  /** The rendering left-padded with zeros to at least `width` characters, as
      the calendar fields of a recording name are (`2023`, `07`, `05`). */
  function Padded(n: nat, width: nat): string {
    var d := Decimal(n);
    if |d| < width then Zeros(width - |d|) + d else d
  }

  lemma {:induction false} ZerosValue(k: nat)
    ensures DigitsValue(Zeros(k)) == 0
  {
    if k > 0 {
      ZerosValue(k - 1);
      assert Zeros(k)[..k - 1] == Zeros(k - 1);
    }
  }

  /** Leading zeros do not change the value of a digit string. */
  lemma {:induction false} LeadingZeros(k: nat, s: string)
    requires forall i :: 0 <= i < |s| ==> IsDigit(s[i])
    ensures DigitsValue(Zeros(k) + s) == DigitsValue(s)
  {
    if |s| == 0 {
      assert Zeros(k) + s == Zeros(k);
      ZerosValue(k);
    } else {
      var t := Zeros(k) + s;
      assert t[..|t| - 1] == Zeros(k) + s[..|s| - 1];
      LeadingZeros(k, s[..|s| - 1]);
    }
  }

  /** A zero-padded rendering parses back to the number. */
  lemma ParsePadded(n: nat, width: nat)
    ensures IsDigits(Padded(n, width))
    ensures ParseInt(Padded(n, width)) == Some(n)
  {
    var d := Decimal(n);
    DecimalDigits(n);
    if |d| < width {
      LeadingZeros(width - |d|, d);
    }
  }

  /** A signed rendering parses back to the number, as `int('+7')` and
      `int('-7')` do. Only the `+` form can reach the name parser: a `-`
      there is already a separator. */
  lemma ParseSigned(n: nat)
    ensures ParseInt("-" + Decimal(n)) == Some(0 - n)
    ensures ParseInt("+" + Decimal(n)) == Some(n)
  {
    DecimalDigits(n);
    assert ("-" + Decimal(n))[1..] == Decimal(n);
    assert ("+" + Decimal(n))[1..] == Decimal(n);
  }

  // ---------------------------------------------------------------------------
  // Recording names

  datatype StartTime = StartTime(year: int, month: int, day: int, hour: int, minute: int, second: int)

  datatype ParseError =
    | BadField(index: nat)       // the piece at `index` is not an integer (int() raises)
    | WrongFieldCount(count: nat) // all pieces are integers but there are not six of them

  /** The pieces of a name after `_` has become `-`. */
  function Fields(name: string): (r: seq<string>)
    ensures |r| >= 1
    ensures forall i :: 0 <= i < |r| ==> '-' !in r[i]
    ensures Join(r, '-') == ReplaceAll(name, '_', '-')
  {
    var dashed := ReplaceAll(name, '_', '-');
    JoinSplit(dashed, '-');
    Split(dashed, '-')
  }

  /** Convert every piece, left to right, stopping at the first that is not an integer. */
  function ParseAll(parts: seq<string>): (r: Result<seq<int>, nat>)
    ensures r.Success? ==> |r.value| == |parts|
    ensures r.Success? ==> forall i :: 0 <= i < |parts| ==> ParseInt(parts[i]) == Some(r.value[i])
    ensures r.Failure? ==> r.error < |parts| && ParseInt(parts[r.error]).None?
    ensures r.Failure? ==> forall i :: 0 <= i < r.error ==> ParseInt(parts[i]).Some?
  {
    if |parts| == 0 then Success([])
    else
      match ParseInt(parts[0])
      case None => Failure(0)
      case Some(v) =>
        match ParseAll(parts[1..])
        case Success(vs) => Success([v] + vs)
        case Failure(k) => Failure(k + 1)
  }

  /** The six calendar fields of a recording name. */
  function ParseRecordingName(name: string): (r: Result<StartTime, ParseError>)
    ensures r.Success? <==>
      |Fields(name)| == 6 && forall i :: 0 <= i < 6 ==> ParseInt(Fields(name)[i]).Some?
    ensures r.Success? ==>
      var f := Fields(name);
      && ParseInt(f[0]) == Some(r.value.year) && ParseInt(f[1]) == Some(r.value.month)
      && ParseInt(f[2]) == Some(r.value.day) && ParseInt(f[3]) == Some(r.value.hour)
      && ParseInt(f[4]) == Some(r.value.minute) && ParseInt(f[5]) == Some(r.value.second)
    ensures r.Failure? && r.error.BadField? ==>
      var f := Fields(name);
      && r.error.index < |f| && ParseInt(f[r.error.index]).None?
      && forall i :: 0 <= i < r.error.index ==> ParseInt(f[i]).Some?
    ensures r.Failure? && r.error.WrongFieldCount? ==>
      var f := Fields(name);
      && r.error.count == |f| != 6 && forall i :: 0 <= i < |f| ==> ParseInt(f[i]).Some?
  {
    match ParseAll(Fields(name))
    case Failure(k) => Failure(BadField(k))
    case Success(vs) =>
      if |vs| != 6 then Failure(WrongFieldCount(|vs|))
      else Success(StartTime(vs[0], vs[1], vs[2], vs[3], vs[4], vs[5]))
  }

  /** When every piece is an integer, the conversion yields exactly those integers. */
  lemma {:induction false} ParseAllOk(parts: seq<string>, vs: seq<int>)
    requires |parts| == |vs|
    requires forall i :: 0 <= i < |parts| ==> ParseInt(parts[i]) == Some(vs[i])
    ensures ParseAll(parts) == Success(vs)
  {
    if |parts| > 0 {
      ParseAllOk(parts[1..], vs[1..]);
      assert [vs[0]] + vs[1..] == vs;
    }
  }

  predicate NonNegative(t: StartTime) {
    t.year >= 0 && t.month >= 0 && t.day >= 0 && t.hour >= 0 && t.minute >= 0 && t.second >= 0
  }

  /** The naming convention of the recordings: zero-padded fields joined by `_`. */
  function Format(t: StartTime): string
    requires NonNegative(t)
  {
    Join([Padded(t.year, 4), Padded(t.month, 2), Padded(t.day, 2),
          Padded(t.hour, 2), Padded(t.minute, 2), Padded(t.second, 2)], '_')
  }

  /** Every name written by the convention reads back as the start time it encodes. */
  lemma ParseFormat(t: StartTime)
    requires NonNegative(t)
    ensures ParseRecordingName(Format(t)) == Success(t)
  {
    var parts := [Padded(t.year, 4), Padded(t.month, 2), Padded(t.day, 2),
                  Padded(t.hour, 2), Padded(t.minute, 2), Padded(t.second, 2)];
    ParsePadded(t.year, 4);
    ParsePadded(t.month, 2);
    ParsePadded(t.day, 2);
    ParsePadded(t.hour, 2);
    ParsePadded(t.minute, 2);
    ParsePadded(t.second, 2);
    forall i | 0 <= i < 6 ensures '_' !in parts[i] && '-' !in parts[i] {
      assert IsDigits(parts[i]);
    }
    ReplaceJoin(parts, '_', '-');
    SplitJoin(parts, '-');
    assert Fields(Format(t)) == parts;
    ParseAllOk(parts, [t.year, t.month, t.day, t.hour, t.minute, t.second]);
  }
}
