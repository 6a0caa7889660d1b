/** How the extractor names the files it saves: Python's decimal rendering of
    an `int`, POSIX `os.path.join`, and the `page{p}_img{i}.{ext}` scheme. */
module Naming {

  predicate IsDigit(c: char) {
    '0' <= c <= '9'
  }

  predicate AllDigits(s: string) {
    forall k :: 0 <= k < |s| ==> IsDigit(s[k])
  }

  function DigitChar(d: nat): (c: char)
    requires d < 10
    ensures IsDigit(c) && c as int - '0' as int == d
  {
    ('0' as int + d) as char
  }

  /** The decimal text of `n`, as `str(n)` or an f-string renders it. */
  function Digits(n: nat): string
    decreases n
  {
    if n < 10 then [DigitChar(n)] else Digits(n / 10) + [DigitChar(n % 10)]
  }

  /** The decimal text is at least one digit long, all digits, and without a
      leading zero. */
  lemma {:induction false} DigitsWellFormed(n: nat)
    ensures |Digits(n)| >= 1 && AllDigits(Digits(n))
    ensures Digits(n)[0] == '0' <==> n == 0
    decreases n
  {
    if n >= 10 {
      DigitsWellFormed(n / 10);
    }
  }

  /** The value of a string of decimal digits (the inverse of `Digits`). */
  function DigitsValue(s: string): nat
    requires AllDigits(s)
  {
    if s == [] then 0
    else DigitsValue(s[..|s| - 1]) * 10 + (s[|s| - 1] as int - '0' as int)
  }

  lemma {:induction false} DigitsValueOfDigits(n: nat)
    ensures AllDigits(Digits(n)) && DigitsValue(Digits(n)) == n
    decreases n
  {
    DigitsWellFormed(n);
    if n >= 10 {
      DigitsValueOfDigits(n / 10);
      var s := Digits(n);
      assert s[..|s| - 1] == Digits(n / 10);
    }
  }

  /** Different numbers are rendered differently. */
  lemma DigitsInjective(a: nat, b: nat)
    requires Digits(a) == Digits(b)
    ensures a == b
  {
    DigitsValueOfDigits(a);
    DigitsValueOfDigits(b);
  }

  /** POSIX `os.path.join(dir, name)` for two components: an absolute `name`
      replaces `dir`; otherwise a `/` is put between them unless `dir` is
      empty or already ends in one. */
  function Join(dir: string, name: string): string {
    if |name| > 0 && name[0] == '/' then name
    else if dir == [] || dir[|dir| - 1] == '/' then dir + name
    else dir + "/" + name
  }

  /** Two relative names joined to the same directory give the same path
      only when the names are equal. */
  lemma JoinCancels(dir: string, a: string, b: string)
    requires |a| > 0 && a[0] != '/' && |b| > 0 && b[0] != '/'
    requires Join(dir, a) == Join(dir, b)
    ensures a == b
  {
    var sep := if dir == [] || dir[|dir| - 1] == '/' then "" else "/";
    assert Join(dir, a) == (dir + sep) + a;
    assert Join(dir, b) == (dir + sep) + b;
    assert a == Join(dir, a)[|dir + sep|..];
  }

  /** The base name of image `image` on page `page` (both counted from 0 as
      Python's `enumerate` does) with file extension `ext`: the numbers in the
      name are counted from 1. */
  function ImageBaseName(page: nat, image: nat, ext: string): (name: string)
    ensures |name| > 0 && name[0] == 'p'
  {
    "page" + Digits(page + 1) + "_img" + Digits(image + 1) + "." + ext
  }

  /** The path under which an image is saved inside the output directory. */
  function ImageFileName(dir: string, page: nat, image: nat, ext: string): string {
    Join(dir, ImageBaseName(page, image, ext))
  }

  /** A run of digits ends at the first non-digit, so a digit string followed
      by a non-digit marker can be split off unambiguously. */
  lemma SplitAtMarker(a: string, b: string, c: char, x: string, y: string)
    requires AllDigits(a) && AllDigits(b) && !IsDigit(c)
    requires a + [c] + x == b + [c] + y
    ensures a == b && x == y
  {
    var s := a + [c] + x;
    if |a| < |b| {
      MarkerMisplaced(a, b, c, x, y);
    } else if |b| < |a| {
      MarkerMisplaced(b, a, c, y, x);
    }
    assert a == s[..|a|] == b;
    assert x == s[|a| + 1..] == y;
  }

  /** If the digit run on the left is shorter, the marker on the left faces a
      digit on the right. */
  lemma MarkerMisplaced(a: string, b: string, c: char, x: string, y: string)
    requires AllDigits(b) && !IsDigit(c) && |a| < |b|
    ensures a + [c] + x != b + [c] + y
  {
    var k := |a|;
    assert (a + [c] + x)[k] == c;
    assert (b + [c] + y)[k] == b[k];
  }

  /** The base name with its fields regrouped around the two markers. */
  lemma BaseNameShape(d: string, j: string, e: string)
    ensures "page" + d + "_img" + j + "." + e == "page" + (d + ['_'] + ("img" + (j + ['.'] + e)))
  {
  }

  /** The base name determines the page, the image position and the
      extension it was built from. */
  lemma ImageBaseNameInjective(p1: nat, i1: nat, e1: string, p2: nat, i2: nat, e2: string)
    requires ImageBaseName(p1, i1, e1) == ImageBaseName(p2, i2, e2)
    ensures p1 == p2 && i1 == i2 && e1 == e2
  {
    var d1, d2 := Digits(p1 + 1), Digits(p2 + 1);
    var j1, j2 := Digits(i1 + 1), Digits(i2 + 1);
    DigitsWellFormed(p1 + 1);
    DigitsWellFormed(p2 + 1);
    DigitsWellFormed(i1 + 1);
    DigitsWellFormed(i2 + 1);
    BaseNameShape(d1, j1, e1);
    BaseNameShape(d2, j2, e2);
    var r1, r2 := j1 + ['.'] + e1, j2 + ['.'] + e2;
    var t1, t2 := "img" + r1, "img" + r2;
    var u1, u2 := d1 + ['_'] + t1, d2 + ['_'] + t2;
    assert "page" + u1 == "page" + u2;
    assert u1 == ("page" + u1)[4..];
    assert u2 == ("page" + u2)[4..];
    SplitAtMarker(d1, d2, '_', t1, t2);
    assert r1 == t1[3..] && r2 == t2[3..];
    SplitAtMarker(j1, j2, '.', e1, e2);
    DigitsInjective(p1 + 1, p2 + 1);
    DigitsInjective(i1 + 1, i2 + 1);
  }

  /** Within one output directory, two images get the same file name only
      when they are the same image of the same page with the same extension. */
  lemma ImageFileNameInjective(dir: string, p1: nat, i1: nat, e1: string,
                               p2: nat, i2: nat, e2: string)
    requires ImageFileName(dir, p1, i1, e1) == ImageFileName(dir, p2, i2, e2)
    ensures p1 == p2 && i1 == i2 && e1 == e2
  {
    JoinCancels(dir, ImageBaseName(p1, i1, e1), ImageBaseName(p2, i2, e2));
    ImageBaseNameInjective(p1, i1, e1, p2, i2, e2);
  }
}
