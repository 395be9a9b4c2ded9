/**
 * String rules shared by the behaviours of the site script: JavaScript's `\s` character
 * class, ASCII lower-casing, the category slug, `trim`, and decimal rendering of counts.
 */
module Text {

  /** JavaScript's `\s`: the ECMAScript WhiteSpace and LineTerminator code points.
      `String.prototype.trim` removes exactly the same set. */
  predicate IsSpace(c: char) {
    || c == '\t' || c == '\n' || c == '\U{000B}' || c == '\U{000C}' || c == '\r'
    || c == ' ' || c == '\U{00A0}' || c == '\U{1680}'
    || ('\U{2000}' <= c <= '\U{200A}')
    || c == '\U{2028}' || c == '\U{2029}' || c == '\U{202F}' || c == '\U{205F}'
    || c == '\U{3000}' || c == '\U{FEFF}'
  }

  predicate IsUpper(c: char) {
    'A' <= c <= 'Z'
  }

  /** `toLowerCase` on one character, for the ASCII letters. */
  function Lower(c: char): (r: char)
    ensures !IsUpper(r)
    ensures IsUpper(c) ==> r as int == c as int + 32
    ensures !IsUpper(c) ==> r == c
    ensures IsSpace(r) <==> IsSpace(c)
  {
    if IsUpper(c) then (c as int + 32) as char else c
  }

  /** Drops the maximal run of whitespace at the front of `s`. */
  function DropSpaces(s: string): (r: string)
    ensures |r| <= |s| && r == s[|s| - |r|..]
    ensures r == [] || !IsSpace(r[0])
    ensures forall i :: 0 <= i < |s| - |r| ==> IsSpace(s[i])
  {
    if s != [] && IsSpace(s[0]) then DropSpaces(s[1..]) else s
  }

  /** The category slug: the text lower-cased, with each maximal run of whitespace
      turned into a single hyphen. */
  function Slug(s: string): (r: string)
    ensures |r| <= |s|
    ensures r == [] <==> s == []
    decreases |s|
  {
    if s == [] then []
    else if IsSpace(s[0]) then "-" + Slug(DropSpaces(s[1..]))
    else [Lower(s[0])] + Slug(s[1..])
  }

  /** A slug contains no whitespace and no upper-case letter, and is never longer than its input. */
  lemma {:induction false} SlugShape(s: string)
    ensures |Slug(s)| <= |s|
    ensures forall i :: 0 <= i < |Slug(s)| ==> !IsSpace(Slug(s)[i]) && !IsUpper(Slug(s)[i])
    decreases |s|
  {
    if s == [] {
    } else if IsSpace(s[0]) {
      SlugShape(DropSpaces(s[1..]));
    } else {
      SlugShape(s[1..]);
    }
  }

  /** The slug of a non-empty string is non-empty: a category other than the empty
      string always writes a non-empty fragment. */
  lemma SlugNonEmpty(s: string)
    requires s != []
    ensures Slug(s) != []
  {
  }

  /** On a string without whitespace the slug is just the lower-cased string. */
  lemma {:induction false} SlugOfSpaceless(s: string)
    requires forall i :: 0 <= i < |s| ==> !IsSpace(s[i])
    ensures |Slug(s)| == |s|
    ensures forall i :: 0 <= i < |s| ==> Slug(s)[i] == Lower(s[i])
  {
    if s != [] {
      SlugOfSpaceless(s[1..]);
    }
  }

  /** A word without whitespace slugs independently of what follows it. */
  lemma {:induction false} SlugAppendSpaceless(a: string, b: string)
    requires forall i :: 0 <= i < |a| ==> !IsSpace(a[i])
    ensures Slug(a + b) == Slug(a) + Slug(b)
  {
    if a == [] {
      assert a + b == b;
    } else {
      assert (a + b)[1..] == a[1..] + b;
      SlugAppendSpaceless(a[1..], b);
    }
  }

  /** Two words joined by a space slug to their slugs joined by a hyphen. */
  lemma {:induction false} SlugOfTwoWords(a: string, b: string)
    requires forall i :: 0 <= i < |a| ==> !IsSpace(a[i])
    requires b == [] || !IsSpace(b[0])
    ensures Slug(a + (" " + b)) == Slug(a) + ("-" + Slug(b))
  {
    SlugAppendSpaceless(a, " " + b);
    SlugOfRun(" ", b);
  }

  /** Slugging is idempotent: a fragment that is already a slug is its own slug, which is
      why restoring a written fragment finds the link it came from. */
  lemma SlugIdempotent(s: string)
    ensures Slug(Slug(s)) == Slug(s)
  {
    var t := Slug(s);
    SlugShape(s);
    SlugOfSpaceless(t);
  }

  /** Whitespace runs collapse: a non-empty run of whitespace in front of a
      non-whitespace character becomes one hyphen, however long the run is. */
  lemma {:induction false} SlugOfRun(run: string, b: string)
    requires run != [] && forall i :: 0 <= i < |run| ==> IsSpace(run[i])
    requires b == [] || !IsSpace(b[0])
    ensures Slug(run + b) == "-" + Slug(b)
  {
    assert (run + b)[1..] == run[1..] + b;
    DropSpacesOfRun(run[1..], b);
  }

  lemma {:induction false} DropSpacesOfRun(run: string, b: string)
    requires forall i :: 0 <= i < |run| ==> IsSpace(run[i])
    requires b == [] || !IsSpace(b[0])
    ensures DropSpaces(run + b) == b
  {
    if run == [] {
      assert run + b == b;
    } else {
      assert (run + b)[1..] == run[1..] + b;
      DropSpacesOfRun(run[1..], b);
    }
  }

  /** `String.prototype.trim`: whitespace removed at both ends. */
  function Trim(s: string): (r: string)
    ensures r == [] || (!IsSpace(r[0]) && !IsSpace(r[|r| - 1]))
    ensures var i := |s| - |DropSpaces(s)|;
      && i + |r| <= |s| && r == s[i..i + |r|]
      && (forall k :: 0 <= k < i ==> IsSpace(s[k]))
      && (forall k :: i + |r| <= k < |s| ==> IsSpace(s[k]))
  {
    DropSpacesAtEnd(DropSpaces(s))
  }

  function DropSpacesAtEnd(s: string): (r: string)
    ensures |r| <= |s| && r == s[..|r|]
    ensures r == [] || !IsSpace(r[|r| - 1])
    ensures forall i :: |r| <= i < |s| ==> IsSpace(s[i])
  {
    if s != [] && IsSpace(s[|s| - 1]) then DropSpacesAtEnd(s[..|s| - 1]) else s
  }

  predicate IsDigit(c: char) {
    '0' <= c <= '9'
  }

  function DigitChar(d: nat): (c: char)
    requires d < 10
    ensures IsDigit(c) && c as int - '0' as int == d
  {
    ('0' as int + d) as char
  }

  /** The decimal rendering JavaScript gives a non-negative integer in `n + ' article'`. */
  function NatToDecimal(n: nat): (s: string)
    ensures s != []
    ensures forall i :: 0 <= i < |s| ==> IsDigit(s[i])
    ensures |s| > 1 ==> s[0] != '0'
    decreases n
  {
    if n < 10 then [DigitChar(n)] else NatToDecimal(n / 10) + [DigitChar(n % 10)]
  }

  function DigitValue(c: char): nat
    requires IsDigit(c)
  {
    c as int - '0' as int
  }

  /** Reads back a string of decimal digits. */
  function DecimalValue(s: string): nat
    requires forall i :: 0 <= i < |s| ==> IsDigit(s[i])
  {
    if s == [] then 0 else DecimalValue(s[..|s| - 1]) * 10 + DigitValue(s[|s| - 1])
  }

  /** Rendering a count and reading it back gives the count. */
  lemma {:induction false} DecimalRoundTrip(n: nat)
    ensures DecimalValue(NatToDecimal(n)) == n
    decreases n
  {
    if n >= 10 {
      var s := NatToDecimal(n);
      assert s[..|s| - 1] == NatToDecimal(n / 10);
      DecimalRoundTrip(n / 10);
    }
  }

  /** Different counts render differently. */
  lemma DecimalInjective(m: nat, n: nat)
    requires NatToDecimal(m) == NatToDecimal(n)
    ensures m == n
  {
    DecimalRoundTrip(m);
    DecimalRoundTrip(n);
  }
}
