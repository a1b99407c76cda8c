/** Splitting, joining and positional numerals: what `strings.Split`, `strconv.ParseUint`, `fmt.Sprintf`,
    `str.split`, `str.join`, `int` and `str` do for the formats in this repository. */
module Text {
  import opened Basics

  // ----- split and join -----

  function SplitOn(s: string, sep: char): (parts: seq<string>)
    ensures |parts| >= 1
    ensures forall p :: p in parts ==> sep !in p
  {
    if s == "" then [""]
    else
      var rest := SplitOn(s[1..], sep);
      if s[0] == sep then [""] + rest
      else [[s[0]] + rest[0]] + rest[1..]
  }

  function Join(parts: seq<string>, sep: char): string {
    if |parts| == 0 then ""
    else if |parts| == 1 then parts[0]
    else parts[0] + [sep] + Join(parts[1..], sep)
  }

  /** Splitting undoes joining, whatever the parts, as long as none of them holds the separator. */
  lemma {:induction false} SplitOfJoin(parts: seq<string>, sep: char)
    requires |parts| >= 1
    requires forall p :: p in parts ==> sep !in p
    ensures SplitOn(Join(parts, sep), sep) == parts
  {
    if |parts| == 1 {
      SplitFirst(parts[0], "", sep, false);
      assert parts[0] + "" == parts[0];
    } else {
      var rest := Join(parts[1..], sep);
      SplitOfJoin(parts[1..], sep);
      SplitFirst(parts[0], rest, sep, true);
      assert parts[0] + [sep] + rest == parts[0] + ([sep] + rest);
      assert [parts[0]] + parts[1..] == parts;
    }
  }

  lemma {:induction false} SplitStep(c: char, s: string, sep: char)
    requires c != sep
    ensures var rest := SplitOn(s, sep); SplitOn([c] + s, sep) == [[c] + rest[0]] + rest[1..]
  {
    assert ([c] + s)[1..] == s;
  }

  lemma {:induction false} SplitAtOnce(tail: string, sep: char)
    ensures SplitOn([sep] + tail, sep) == [""] + SplitOn(tail, sep)
    ensures SplitOn("", sep) == [""]
  {
    assert ([sep] + tail)[1..] == tail;
  }

  /** A separator-free head stays whole: it is the first part, and the split resumes after the separator. */
  lemma {:induction false} SplitFirst(head: string, tail: string, sep: char, more: bool)
    requires sep !in head
    requires !more ==> tail == ""
    ensures SplitOn(head + if more then [sep] + tail else "", sep)
         == [head] + if more then SplitOn(tail, sep) else []
  {
    hide SplitOn;
    var suffix := if more then [sep] + tail else "";
    var others := if more then SplitOn(tail, sep) else [];
    if head == "" {
      assert head + suffix == suffix && [""] + [] == [""];
      SplitAtOnce(tail, sep);
    } else {
      SplitFirst(head[1..], tail, sep, more);
      SplitStep(head[0], head[1..] + suffix, sep);
      assert [head[0]] + (head[1..] + suffix) == head + suffix;
      assert ([head[1..]] + others)[1..] == others;
      assert [head[0]] + head[1..] == head;
    }
  }

  lemma {:induction false} JoinOfSplit(s: string, sep: char)
    ensures Join(SplitOn(s, sep), sep) == s
  {
    if s != "" {
      JoinOfSplit(s[1..], sep);
      var rest := SplitOn(s[1..], sep);
      var parts := SplitOn(s, sep);
      if s[0] == sep {
        assert parts[1..] == rest;
      } else {
        assert parts[1..] == rest[1..];
        if |rest| > 1 {
          assert Join(parts, sep) == ([s[0]] + rest[0]) + [sep] + Join(rest[1..], sep);
        }
      }
    }
  }

  // ----- numerals -----

  /** The value of a digit as `strconv` reads it: letters count from ten in either case; 36 marks a non-digit. */
  function DigitValue(c: char): (d: nat)
    ensures d <= 36
  {
    if '0' <= c <= '9' then c as int - '0' as int
    else if 'a' <= c <= 'z' then c as int - 'a' as int + 10
    else if 'A' <= c <= 'Z' then c as int - 'A' as int + 10
    else 36
  }

  /** The upper-case digit that `%X`, `%d` and `str` print. */
  function DigitChar(d: nat): (c: char)
    requires d < 36
    ensures DigitValue(c) == d
  {
    if d < 10 then (d + '0' as int) as char else (d - 10 + 'A' as int) as char
  }

  predicate IsDigits(s: string, base: nat) {
    forall c :: c in s ==> DigitValue(c) < base
  }

  /** Positional value of a digit string. */
  function Value(s: string, base: nat): nat
    requires IsDigits(s, base)
  {
    if s == "" then 0 else Value(s[..|s| - 1], base) * base + DigitValue(s[|s| - 1])
  }

  /** The number a numeral denotes; None where the library reports a syntax error. */
  function Parse(s: string, base: nat): Option<nat> {
    if s != "" && IsDigits(s, base) then Some(Value(s, base)) else None
  }

  /** The digits, in either case. */
  lemma HexDigits(d: nat)
    requires d < 16
    ensures DigitValue("0123456789ABCDEF"[d]) == d == DigitValue("0123456789abcdef"[d])
    ensures DigitChar(d) == "0123456789ABCDEF"[d]
  {
  }

  /** A numeral is read exactly if it is not empty and holds nothing but digits of its base. */
  lemma ParseDomain(s: string)
    ensures Parse(s, 10).Some? <==> s != "" && forall c :: c in s ==> '0' <= c <= '9'
    ensures Parse(s, 16).Some? <==>
              s != "" && forall c :: c in s ==> '0' <= c <= '9' || 'a' <= c <= 'f' || 'A' <= c <= 'F'
  {
    assert forall c :: DigitValue(c) < 10 <==> '0' <= c <= '9';
    assert forall c :: DigitValue(c) < 16 <==> '0' <= c <= '9' || 'a' <= c <= 'f' || 'A' <= c <= 'F';
  }

  /** `%d` and `str(n)`: decimal, no leading zero. */
  function Decimal(n: nat): (s: string)
    ensures s != "" && IsDigits(s, 10)
    ensures forall c :: c in s ==> '0' <= c <= '9'
  {
    if n < 10 then [DigitChar(n)] else Decimal(n / 10) + [DigitChar(n % 10)]
  }

  lemma {:induction false} ParseOfDecimal(n: nat)
    ensures Parse(Decimal(n), 10) == Some(n)
  {
    var s := Decimal(n);
    if n < 10 {
      assert s == [DigitChar(n)];
      assert s[..|s| - 1] == "";
      assert Value("", 10) == 0;
      assert Value(s, 10) == DigitValue(s[0]);
    } else {
      ParseOfDecimal(n / 10);
      assert s[..|s| - 1] == Decimal(n / 10);
    }
  }

  /** A decimal numeral the printer could have produced: only '0'..'9', no superfluous leading zero. */
  predicate IsCanonicalDecimal(s: string) {
    && s != ""
    && IsDigits(s, 10)
    && (s[0] == '0' ==> |s| == 1)
  }

  lemma {:induction false} DecimalIsCanonical(n: nat)
    ensures IsCanonicalDecimal(Decimal(n))
    ensures n > 0 ==> Decimal(n)[0] != '0'
  {
    if n >= 10 { DecimalIsCanonical(n / 10); }
  }

  /** Printing what was parsed gives the text back exactly when the text had no superfluous leading zero. */
  lemma {:induction false} DecimalOfParse(s: string)
    requires s != "" && IsDigits(s, 10)
    ensures Decimal(Value(s, 10)) == s <==> IsCanonicalDecimal(s)
  {
    DecimalIsCanonical(Value(s, 10));
    if IsCanonicalDecimal(s) { DecimalOfCanonical(s); }
  }

  lemma {:induction false} DecimalOfCanonical(s: string)
    requires IsCanonicalDecimal(s)
    ensures Decimal(Value(s, 10)) == s
    ensures s != "0" ==> Value(s, 10) > 0
  {
    var front, last := s[..|s| - 1], s[|s| - 1];
    var d := DigitValue(last);
    assert IsDigits([last], 10) && s == front + [last];
    assert DigitChar(d) == last by { DecimalDigit(last); }
    if |s| == 1 {
      assert front == "" && s == [last];
    } else {
      DecimalOfCanonical(front);
      var n := Value(front, 10);
      assert n > 0;
      assert Value(s, 10) == n * 10 + d;
      assert (n * 10 + d) / 10 == n && (n * 10 + d) % 10 == d;
    }
  }

  lemma DecimalDigit(c: char)
    requires DigitValue(c) < 10
    ensures DigitChar(DigitValue(c)) == c
  {
  }
}
