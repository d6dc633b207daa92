/**
 * The names under which the extractor saves images: `page_<P>_image_<I>.png` inside the
 * output directory, with P and I written in decimal the way Python formats a positive int.
 */
module ImageNaming {

  /** A saved image's name: the 1-based page number and the 1-based position of the
      image reference in that page's list. */
  datatype Name = Name(page: nat, image: nat)

  /** Lexicographic order on names: by page, then by image number. */
  predicate NameBefore(a: Name, b: Name) {
    a.page < b.page || (a.page == b.page && a.image < b.image)
  }

  predicate IsDigit(c: char) {
    '0' <= c <= '9'
  }

  predicate AllDigits(s: string) {
    forall i :: 0 <= i < |s| ==> IsDigit(s[i])
  }

  function DigitChar(d: nat): (c: char)
    requires d < 10
    ensures IsDigit(c)
  {
    (48 + d) as char
  }

  function DigitValue(c: char): (d: nat)
    requires IsDigit(c)
    ensures d < 10 && DigitChar(d) == c
  {
    c as int - 48
  }

  /** Decimal notation of n, most significant digit first, without leading zeros: one digit
      below ten, and the first digit is '0' only for 0. */
  function Decimal(n: nat): (s: string)
    ensures |s| >= 1 && AllDigits(s)
    ensures n < 10 <==> |s| == 1
    ensures (s[0] == '0') == (n == 0)
    decreases n
  {
    if n < 10 then [DigitChar(n)] else Decimal(n / 10) + [DigitChar(n % 10)]
  }

  /** The number that a string of decimal digits denotes. */
  function DecimalValue(s: string): nat
    requires AllDigits(s)
    decreases |s|
  {
    if s == [] then 0 else 10 * DecimalValue(s[..|s| - 1]) + DigitValue(s[|s| - 1])
  }

  lemma {:induction false} DecimalRoundTrip(n: nat)
    ensures DecimalValue(Decimal(n)) == n
    decreases n
  {
    var s := Decimal(n);
    if n < 10 {
      assert s[..|s| - 1] == [];
    } else {
      DecimalRoundTrip(n / 10);
      assert s[..|s| - 1] == Decimal(n / 10);
    }
  }

  lemma DecimalInjective(a: nat, b: nat)
    requires Decimal(a) == Decimal(b)
    ensures a == b
  {
    DecimalRoundTrip(a);
    DecimalRoundTrip(b);
  }

  /** The file name the extractor writes for a name. */
  function FileName(n: Name): string {
    "page_" + Decimal(n.page) + "_image_" + Decimal(n.image) + ".png"
  }

  /** The path of a saved image: the output directory joined with its file name. */
  function FilePath(dir: string, n: Name): string {
    dir + "/" + FileName(n)
  }

  /** A run of digits followed by a non-digit splits in only one way. */
  lemma DigitsThenSeparator(x: string, u: string, y: string, v: string)
    requires AllDigits(x) && AllDigits(y)
    requires |u| > 0 && |v| > 0 && !IsDigit(u[0]) && !IsDigit(v[0])
    requires x + u == y + v
    ensures x == y && u == v
  {
    assert !IsDigit((x + u)[|x|]);
    assert !IsDigit((y + v)[|y|]);
    assert forall i :: 0 <= i < |x| ==> IsDigit((x + u)[i]);
    assert forall i :: 0 <= i < |y| ==> IsDigit((y + v)[i]);
    assert |x| == |y|;
    assert x == (x + u)[..|x|];
    assert y == (y + v)[..|y|];
    assert u == (x + u)[|x|..];
    assert v == (y + v)[|y|..];
  }

  lemma StripPrefix(pre: string, a: string, b: string)
    requires pre + a == pre + b
    ensures a == b
  {
    assert a == (pre + a)[|pre|..];
    assert b == (pre + b)[|pre|..];
  }

  lemma StripSuffix(a: string, b: string, suf: string)
    requires a + suf == b + suf
    ensures a == b
  {
    assert a == (a + suf)[..|a|];
    assert b == (b + suf)[..|b|];
  }

  lemma FileNameParts(n: Name)
    ensures FileName(n) == "page_" + (Decimal(n.page) + ("_image_" + (Decimal(n.image) + ".png")))
  {
  }

  /** Distinct names give distinct file names: no saved image overwrites another. */
  lemma FileNameInjective(a: Name, b: Name)
    requires FileName(a) == FileName(b)
    ensures a == b
  {
    var u, v := "_image_" + (Decimal(a.image) + ".png"), "_image_" + (Decimal(b.image) + ".png");
    FileNameParts(a);
    FileNameParts(b);
    StripPrefix("page_", Decimal(a.page) + u, Decimal(b.page) + v);
    DigitsThenSeparator(Decimal(a.page), u, Decimal(b.page), v);
    StripPrefix("_image_", Decimal(a.image) + ".png", Decimal(b.image) + ".png");
    StripSuffix(Decimal(a.image), Decimal(b.image), ".png");
    DecimalInjective(a.page, b.page);
    DecimalInjective(a.image, b.image);
  }

  lemma FilePathInjective(dir: string, a: Name, b: Name)
    requires FilePath(dir, a) == FilePath(dir, b)
    ensures a == b
  {
    assert FileName(a) == FilePath(dir, a)[|dir| + 1..];
    assert FileName(b) == FilePath(dir, b)[|dir| + 1..];
    FileNameInjective(a, b);
  }
}
