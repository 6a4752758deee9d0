/** Lines of a sheet read back: what number a numeral stands for, which track a label names, and
    where label and text stand in a line. */
module CdTextLines {
  import opened Arithmetic
  import opened CdTextWriter
  import opened Options
  import opened CdTextBytes
  import opened CdTextSheet

  // ---------------------------------------------------------------- numerals

  /** The value of a digit, or something beyond any base */
  function DigitValue(c: char): nat
  {
    if '0' <= c <= '9' then c as int - '0' as int
    else if 'a' <= c <= 'f' then 10 + (c as int - 'a' as int)
    else 99
  }

  predicate Numeral(s: string, base: nat) { s != "" && forall k | 0 <= k < |s| :: DigitValue(s[k]) < base }

  /** The number that a numeral stands for */
  function ValueOf(s: string, base: nat): nat
  {
    if s == "" then 0 else base * ValueOf(s[..|s| - 1], base) + DigitValue(s[|s| - 1])
  }

  lemma DigitRead(d: nat)
    requires d < 16
    ensures DigitValue(Digit(d)) == d
  {
  }

  /** One digit more */
  lemma NumeralGrows(s: string, c: char, base: nat)
    requires s == "" || Numeral(s, base)
    requires DigitValue(c) < base
    ensures Numeral(s + [c], base) && ValueOf(s + [c], base) == base * ValueOf(s, base) + DigitValue(c)
  {
    hide DigitValue;
    var t := s + [c];
    assert t[..|t| - 1] == s;
  }

  lemma {:induction false} NumberRead(n: nat, base: nat)
    requires 2 <= base <= 16
    ensures var s := Number(n, base); Numeral(s, base) && ValueOf(s, base) == n && (s[0] == '0' <==> n == 0)
    decreases n
  {
    hide Numeral; hide ValueOf; hide DigitValue; hide Digit; hide Number;
    var q, r := n / base, n % base;
    QuotientPositive(n, base);
    NumberStep(n, base);
    DigitRead(r);
    ZeroDigit(r);
    if n < base {
      NumeralGrows("", Digit(r), base);
      NoDigits(base);
    } else {
      NumberRead(q, base);
      NumeralGrows(Number(q, base), Digit(r), base);
      NotEmpty(Number(q, base), base);
    }
  }

  lemma NumberStep(n: nat, base: nat)
    requires 2 <= base <= 16
    ensures Number(n, base) == (if n < base then "" else Number(n / base, base)) + [Digit(n % base)]
  {
  }

  lemma NotEmpty(s: string, base: nat)
    requires Numeral(s, base)
    ensures s != ""
  {
  }

  lemma ZeroDigit(d: nat)
    requires d < 16
    ensures Digit(d) == '0' <==> d == 0
  {
  }

  lemma NoDigits(base: nat)
    ensures ValueOf("", base) == 0 && base * 0 == 0
  {
  }

  lemma QuotientPositive(n: nat, base: nat)
    requires 2 <= base
    ensures base * (n / base) + n % base == n && n % base < base
    ensures n >= base ==> 0 < n / base < n
    ensures n < base ==> n % base == n
  {
    var q, r := n / base, n % base;
    assert n == q * base + r;
    assert q * base == base * q;
    if q > 0 {
      Monotone(1, q, base);
      Monotone(2, base, q);
    }
  }

  lemma {:induction false} ZerosRead(n: nat, s: string, base: nat)
    requires base >= 2
    ensures ValueOf(ZeroDigits(n) + s, base) == ValueOf(s, base)
    ensures Numeral(s, base) ==> Numeral(ZeroDigits(n) + s, base)
    decreases |s|, n
  {
    var t := ZeroDigits(n) + s;
    if s != "" {
      ZerosRead(n, s[..|s| - 1], base);
      assert t[..|t| - 1] == ZeroDigits(n) + s[..|s| - 1];
    } else if n > 0 {
      ZerosRead(n - 1, s, base);
      assert t[..|t| - 1] == ZeroDigits(n - 1) + s;
      assert base * 0 == 0;
    }
  }

  /** A padded number: at least so many digits, and the same value. */
  lemma PaddedRead(n: nat, base: nat, digits: nat)
    requires 2 <= base <= 16
    ensures var s := WithDigits(n, base, digits);
            Numeral(s, base) && ValueOf(s, base) == n && |s| >= digits && (|s| > digits ==> s[0] != '0' || n == 0)
  {
    hide Number; hide ValueOf; hide Numeral;
    NumberRead(n, base);
    var s := Number(n, base);
    ZerosRead(if |s| < digits then digits - |s| else 0, s, base);
    assert ZeroDigits(0) + s == s;
  }

  // ------------------------------------------------------------------ labels

  /** The label of a track: a word, two or more decimal digits, and what it is about. */
  ghost predicate NamesTrack(head: string, about: string, track: nat)
  {
    exists d: string :: Numeral(d, 10) && |d| >= 2 && ValueOf(d, 10) == track && Heads(head, about, d)
  }

  predicate Heads(head: string, about: string, d: string)
  {
    head == if about == "ISRC" then "ISRC " + d else "Track " + d + " " + about
  }

  lemma LabelHeads(spec: string, tno: nat, firstTno: int)
    requires tno > 0 && firstTno > 0
    ensures Heads(Label(spec, tno, firstTno), spec, WithDigits(tno + firstTno - 1, 10, 2))
  {
    hide WithDigits;
    var d := WithDigits(tno + firstTno - 1, 10, 2);
    if spec == "ISRC" {
      assert spec + " " == "ISRC ";
    }
  }

  lemma LabelNames(spec: string, tno: nat, firstTno: int)
    requires tno > 0 && firstTno > 0
    ensures NamesTrack(Label(spec, tno, firstTno), spec, tno + firstTno - 1)
  {
    hide WithDigits; hide Numeral; hide ValueOf; hide Heads; hide Label;
    PaddedRead(tno + firstTno - 1, 10, 2);
    LabelHeads(spec, tno, firstTno);
  }

  /** How a label begins, and what follows its first word */
  lemma LabelParts(head: string, about: string, d: string)
    requires Heads(head, about, d)
    ensures head != "" && (head[0] == 'I' <==> about == "ISRC")
    ensures if about == "ISRC" then |head| >= 5 && head[5..] == d else |head| >= 6 && head[6..] == d + " " + about
  {
    if about == "ISRC" {
      Behind("ISRC ", d);
    } else {
      assert head == "Track " + (d + " " + about);
      Behind("Track ", d + " " + about);
    }
  }

  lemma Behind(s: string, t: string)
    ensures |s + t| >= |s| && (s + t)[|s|..] == t && (s != "" ==> (s + t)[0] == s[0])
  {
  }

  /** A label names one track only. */
  lemma OneTrack(head: string, about: string, about': string, j: nat, k: nat)
    requires NamesTrack(head, about, j) && NamesTrack(head, about', k)
    ensures j == k && about == about'
  {
    hide ValueOf; hide Numeral; hide Heads;
    var d: string :| Numeral(d, 10) && |d| >= 2 && ValueOf(d, 10) == j && Heads(head, about, d);
    var e: string :| Numeral(e, 10) && |e| >= 2 && ValueOf(e, 10) == k && Heads(head, about', e);
    LabelParts(head, about, d);
    LabelParts(head, about', e);
    if about != "ISRC" {
      SameNumeral(d, about, e, about');
    }
  }

  lemma NoBlank(d: string, k: nat)
    requires Numeral(d, 10) && k < |d|
    ensures d[k] != ' '
  {
  }

  lemma SameNumeral(d: string, s: string, e: string, t: string)
    requires Numeral(d, 10) && Numeral(e, 10) && d + " " + s == e + " " + t
    ensures d == e && s == t
  {
    hide Numeral;
    var x, y := d + " " + s, e + " " + t;
    assert x[|d|] == ' ' && y[|e|] == ' ';
    assert |d| < |e| ==> y[|d|] == e[|d|];
    assert |e| < |d| ==> x[|e|] == d[|e|];
    assert |d| == |e| by {
      if |d| < |e| {
        NoBlank(e, |d|);
      } else if |e| < |d| {
        NoBlank(d, |e|);
      }
    }
    assert x[..|d|] == d && y[..|e|] == e;
    assert x[|d| + 1..] == s && y[|e| + 1..] == t;
  }

  // ------------------------------------------------------------------- lines

  /** Characters of one byte */
  predicate Narrow8(s: string) { forall k | 0 <= k < |s| :: s[k] as int < 256 }

  /** Label, at least 19 columns wide, " = ", the text and a line feed */
  predicate IsLine(line: seq<bv8>, head: string, text: seq<bv8>)
  {
    var w := if |head| < 19 then 19 else |head|;
    && |line| == w + |text| + 4
    && (forall k | 0 <= k < |head| :: line[k] as int == head[k] as int)
    && (forall k | |head| <= k < w :: line[k] == 0x20)
    && line[w] == 0x20 && line[w + 1] == 0x3D && line[w + 2] == 0x20
    && line[w + 3..w + 3 + |text|] == text
    && line[w + 3 + |text|] == 0x0A
  }

  lemma AsciiRead(s: string, k: nat)
    requires k < |s| && s[k] as int < 256
    ensures Ascii(s)[k] as int == s[k] as int
  {
    hide ByteOf;
    ByteValue(s[k] as int);
  }

  lemma LineRead(head: string, text: seq<bv8>)
    requires Narrow8(head)
    ensures IsLine(Line(head, text), head, text)
  {
    hide ByteOf; hide Ascii;
    var w := if |head| < 19 then 19 else |head|;
    var line := Line(head, text);
    EqualSign();
    assert Left(head)[..w] == Ascii(head) + Blanks(w - |head|);
    assert Left(head)[w..] == Ascii(" = ");
    forall k | 0 <= k < |head|
      ensures line[k] as int == head[k] as int
    {
      AsciiRead(head, k);
      assert line[k] == Ascii(head)[k];
    }
    forall k | |head| <= k < w
      ensures line[k] == 0x20
    {
      assert line[k] == Blanks(w - |head|)[k - |head|];
    }
    assert line[w] == Ascii(" = ")[0] && line[w + 1] == Ascii(" = ")[1] && line[w + 2] == Ascii(" = ")[2];
  }

  lemma EqualSign()
    ensures Ascii(" = ") == [0x20, 0x3D, 0x20]
  {
    hide ByteOf;
    var a := Ascii(" = ");
    assert a[0] == ByteOf(0x20) && a[1] == ByteOf(0x3D) && a[2] == ByteOf(0x20);
    SomeBytes();
  }

  lemma SomeBytes()
    ensures ByteOf(0x20) == 0x20 && ByteOf(0x3D) == 0x3D
  {
    assert 0x20 % 256 == 0x20 && 0x3D % 256 == 0x3D;
  }
}
