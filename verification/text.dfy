/** String helpers shared by the claim parser and the guard log: Rust's
    `str::split` on a one-character separator and the integer parsers
    behind `str::parse`. Strings are sequences of ASCII characters. */
module Text {
  import opened Options

  /** `s.split(sep)`: every piece between separators, empty ones included;
      an empty string yields one empty piece. */
  function Split(s: string, sep: char): (parts: seq<string>)
    ensures |parts| >= 1
    ensures forall k :: 0 <= k < |parts| ==> sep !in parts[k]
    decreases |s|
  {
    if s == [] then [""]
    else
      var rest := Split(s[1..], sep);
      if s[0] == sep then [""] + rest
      else [[s[0]] + rest[0]] + rest[1..]
  }

  /** The pieces glued back together, one separator between neighbours. */
  function Join(parts: seq<string>, sep: char): string
    requires |parts| >= 1
    decreases |parts|
  {
    if |parts| == 1 then parts[0] else parts[0] + [sep] + Join(parts[1..], sep)
  }

  /** Splitting loses nothing: joining the pieces gives the string back. */
  lemma {:induction false} JoinSplit(s: string, sep: char)
    ensures Join(Split(s, sep), sep) == s
    decreases |s|
  {
    if s != [] {
      JoinSplit(s[1..], sep);
      var rest := Split(s[1..], sep);
      if s[0] != sep {
        if |rest| == 1 {
          assert Join(Split(s, sep), sep) == [s[0]] + rest[0];
        } else {
          assert Split(s, sep)[1..] == rest[1..];
          assert Join(Split(s, sep), sep) == [s[0]] + rest[0] + [sep] + Join(rest[1..], sep);
        }
        assert [s[0]] + s[1..] == s;
      } else {
        assert Split(s, sep)[1..] == rest;
        assert [sep] + s[1..] == s;
      }
    }
  }

  /** A piece free of separators followed by a separator splits off as one piece. */
  lemma {:induction false} SplitPiece(w: string, sep: char, t: string)
    requires sep !in w
    ensures Split(w + [sep] + t, sep) == [w] + Split(t, sep)
    decreases |w|
  {
    if w == [] {
      assert [sep] + t == w + [sep] + t;
      assert ([sep] + t)[1..] == t;
    } else {
      SplitPiece(w[1..], sep, t);
      var s := w + [sep] + t;
      assert s[0] == w[0] && s[1..] == w[1..] + [sep] + t;
      var rest := Split(s[1..], sep);
      assert rest[0] == w[1..] && rest[1..] == Split(t, sep);
      assert [w[0]] + w[1..] == w;
    }
  }

  /** A string free of separators is a single piece. */
  lemma {:induction false} SplitWhole(w: string, sep: char)
    requires sep !in w
    ensures Split(w, sep) == [w]
    decreases |w|
  {
    if w != [] {
      SplitWhole(w[1..], sep);
      assert [w[0]] + w[1..] == w;
    }
  }

  /** Splitting undoes joining pieces that contain no separator. */
  lemma {:induction false} SplitJoin(parts: seq<string>, sep: char)
    requires |parts| >= 1
    requires forall k :: 0 <= k < |parts| ==> sep !in parts[k]
    ensures Split(Join(parts, sep), sep) == parts
    decreases |parts|
  {
    if |parts| == 1 {
      SplitWhole(parts[0], sep);
    } else {
      SplitJoin(parts[1..], sep);
      SplitPiece(parts[0], sep, Join(parts[1..], sep));
      assert [parts[0]] + parts[1..] == parts;
    }
  }

  predicate IsDigit(c: char) { '0' <= c <= '9' }

  predicate AllDigits(s: string) { forall k :: 0 <= k < |s| ==> IsDigit(s[k]) }

  /** The value of a decimal digit string, most significant digit first. */
  function DigitsValue(s: string): nat
    requires AllDigits(s)
    decreases |s|
  {
    if s == [] then 0
    else DigitsValue(s[..|s| - 1]) * 10 + (s[|s| - 1] as int - '0' as int)
  }

  /** The shortest decimal digit string of `n`: what `format!("{}", n)` prints. */
  function Digits(n: nat): (s: string)
    ensures |s| >= 1 && AllDigits(s)
    ensures DigitsValue(s) == n
    decreases n
  {
    var last := ('0' as int + n % 10) as char;
    if n < 10 then [last]
    else
      var s := Digits(n / 10) + [last];
      assert s[..|s| - 1] == Digits(n / 10);
      s
  }

  /** `s.parse::<usize>()`: an optional `+` and at least one digit; anything
      else is an error. Overflow of the machine word is not modelled. */
  function ParseUnsigned(s: string): (r: Option<nat>)
    ensures r.Some? <==> (if |s| > 0 && s[0] == '+' then |s| > 1 && AllDigits(s[1..]) else |s| > 0 && AllDigits(s))
  {
    var body := if |s| > 0 && s[0] == '+' then s[1..] else s;
    if |body| > 0 && (|s| > 0 && s[0] == '+' ==> |s| > 1) && AllDigits(body) then Some(DigitsValue(body)) else None
  }

  /** `s.parse::<isize>()`: an optional `+` or `-` and at least one digit. */
  function ParseSigned(s: string): (r: Option<int>)
    ensures r.Some? <==> |s| > 0 && (if s[0] == '+' || s[0] == '-' then |s| > 1 && AllDigits(s[1..]) else AllDigits(s))
    ensures r.Some? && s[0] == '-' ==> r.value <= 0
    ensures r.Some? && s[0] != '-' ==> r.value >= 0
  {
    if |s| > 0 && s[0] == '-' then
      (if |s| > 1 && AllDigits(s[1..]) then var v: int := -(DigitsValue(s[1..]) as int); Some(v) else None)
    else
      match ParseUnsigned(s)
      case None => None
      case Some(n) => Some(n)
  }

  /** Printing a natural number and parsing it back gives the number. */
  lemma ParseDigits(n: nat)
    ensures ParseSigned(Digits(n)) == Some(n)
    ensures ParseUnsigned(Digits(n)) == Some(n)
  {
    var s := Digits(n);
    assert IsDigit(s[0]);
  }

  /** `z` zero characters. */
  function Zeros(z: nat): (s: string)
    ensures |s| == z && AllDigits(s)
  {
    seq(z, _ => '0')
  }

  /** A string of zeros is worth 0. */
  lemma {:induction false} ZerosValue(z: nat)
    ensures DigitsValue(Zeros(z)) == 0
  {
    if z > 0 {
      ZerosValue(z - 1);
      assert Zeros(z)[..z - 1] == Zeros(z - 1);
    }
  }

  /** Leading zeros do not change the value of a digit string. */
  lemma {:induction false} LeadingZeros(z: nat, s: string)
    requires AllDigits(s)
    ensures AllDigits(Zeros(z) + s) && DigitsValue(Zeros(z) + s) == DigitsValue(s)
    decreases |s|
  {
    var t := Zeros(z) + s;
    assert forall k :: 0 <= k < |t| ==> IsDigit(t[k]);
    if s == [] {
      assert t == Zeros(z);
      ZerosValue(z);
    } else {
      var init := s[..|s| - 1];
      LeadingZeros(z, init);
      assert t[..|t| - 1] == Zeros(z) + init;
      assert t[|t| - 1] == s[|s| - 1];
    }
  }

  /** A zero-padded number, as the two-digit minutes of a log record, parses
      to its value with either parser. */
  lemma ParsePadded(z: nat, n: nat)
    ensures ParseUnsigned(Zeros(z) + Digits(n)) == Some(n)
    ensures ParseSigned(Zeros(z) + Digits(n)) == Some(n)
  {
    var t := Zeros(z) + Digits(n);
    LeadingZeros(z, Digits(n));
    assert IsDigit(t[0]);
  }

  /** A sign before the digits: `-` negates the value, `+` keeps it; the
      unsigned parser takes only `+`. */
  lemma ParseSignedDigits(n: nat)
    ensures ParseSigned("-" + Digits(n)) == Some(-(n as int))
    ensures ParseSigned("+" + Digits(n)) == Some(n)
    ensures ParseUnsigned("+" + Digits(n)) == Some(n)
    ensures ParseUnsigned("-" + Digits(n)) == None
  {
    assert ("-" + Digits(n))[1..] == Digits(n);
    assert ("+" + Digits(n))[1..] == Digits(n);
    assert !IsDigit('-');
  }

  /** Concrete texts: the minute `05`, the minute `00`, a negative and an
      explicitly positive change. */
  lemma ParseExamples()
    ensures ParseUnsigned("05") == Some(5)
    ensures ParseUnsigned("00") == Some(0)
    ensures ParseSigned("-12") == Some(-12)
    ensures ParseSigned("+7") == Some(7)
  {
    assert Digits(5) == "5" && Digits(0) == "0" && Digits(7) == "7";
    assert Zeros(1) == "0";
    ParsePadded(1, 5);
    ParsePadded(1, 0);
    assert Zeros(1) + Digits(5) == "05";
    assert Zeros(1) + Digits(0) == "00";
    assert Digits(12) == Digits(1) + "2" == "12";
    ParseSignedDigits(12);
    ParseSignedDigits(7);
    assert "-" + Digits(12) == "-12";
    assert "+" + Digits(7) == "+7";
  }
}
