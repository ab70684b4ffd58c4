/**
 * String operations the core relies on, over ASCII: JavaScript's `toLowerCase`, `trim`, the `\s`
 * class, the `/^[a-z0-9-]+$/` pattern of `uniqueId`, and the event slug
 * `title.toLowerCase().replace(/\s+/g, "-")`.
 */
module Text {
  import opened Common

  /** `\s` and `trim` whitespace restricted to ASCII: tab, line feed, vertical tab, form feed, carriage return, space. */
  predicate IsSpace(c: char) {
    c == ' ' || '\t' <= c <= '\r'
  }

  predicate NoSpace(s: string) {
    forall i :: 0 <= i < |s| ==> !IsSpace(s[i])
  }

  /** `toLowerCase` on one character; only `A`..`Z` change. */
  function LowerChar(c: char): char {
    if 'A' <= c <= 'Z' then (c as int + 32) as char else c
  }

  function Lower(s: string): string {
    seq(|s|, i requires 0 <= i < |s| => LowerChar(s[i]))
  }

  /** No character of `s` is changed by `toLowerCase`. */
  predicate IsLowercase(s: string) {
    forall i :: 0 <= i < |s| ==> LowerChar(s[i]) == s[i]
  }

  /** One character of the `uniqueId` pattern `[a-z0-9-]`. */
  predicate IsIdChar(c: char) {
    'a' <= c <= 'z' || '0' <= c <= '9' || c == '-'
  }

  /** `/^[a-z0-9-]+$/.test(s)`. */
  predicate MatchesIdPattern(s: string) {
    |s| > 0 && forall i :: 0 <= i < |s| ==> IsIdChar(s[i])
  }

  /** Removes the leading run of whitespace: what is left is the suffix after that maximal run. */
  function DropSpaces(s: string): (r: string)
    ensures |r| <= |s| && r == s[|s| - |r|..]
    ensures r == [] || !IsSpace(r[0])
    ensures forall i :: 0 <= i < |s| - |r| ==> IsSpace(s[i])
  {
    if s != [] && IsSpace(s[0]) then DropSpaces(s[1..]) else s
  }

  /** Removes the trailing run of whitespace: what is left is the prefix before that maximal run. */
  function DropTrailingSpaces(s: string): (r: string)
    ensures |r| <= |s| && r == s[..|r|]
    ensures r == [] || !IsSpace(r[|r| - 1])
    ensures forall i :: |r| <= i < |s| ==> IsSpace(s[i])
  {
    if s != [] && IsSpace(s[|s| - 1]) then DropTrailingSpaces(s[..|s| - 1]) else s
  }

  /** Some character of `s` is not whitespace, so `s` survives `trim` as a required value. */
  predicate HasText(s: string) {
    exists i :: 0 <= i < |s| && !IsSpace(s[i])
  }

  /** `String.prototype.trim`, the `trim: true` setter of the schemas: empty exactly when `s` is all whitespace. */
  function Trim(s: string): (r: string)
    ensures r == [] || (!IsSpace(r[0]) && !IsSpace(r[|r| - 1]))
    ensures r == [] <==> !HasText(s)
  {
    var d := DropSpaces(s);
    assert d != [] ==> !IsSpace(s[|s| - |d|]);
    DropTrailingSpaces(d)
  }

  /**
   * `trim` removes a leading and a trailing run of whitespace and nothing else: the result is the
   * slice of `s` between them. With `Trim`'s own contract (the slice neither starts nor ends with
   * whitespace) this determines the result.
   */
  lemma TrimSlice(s: string)
    ensures exists i, j ::
              && 0 <= i <= j <= |s|
              && Trim(s) == s[i..j]
              && (forall k :: 0 <= k < i ==> IsSpace(s[k]))
              && (forall k :: j <= k < |s| ==> IsSpace(s[k]))
  {
    var d := DropSpaces(s);
    var i := |s| - |d|;
    var r := DropTrailingSpaces(d);
    var j := i + |r|;
    assert r == s[i..j];
    forall k | j <= k < |s| ensures IsSpace(s[k]) {
      assert s[k] == d[k - i];
    }
  }

  /**
   * `String.prototype.length`, which counts UTF-16 code units: a character outside the Basic
   * Multilingual Plane takes two.
   */
  function Utf16Length(s: string): (n: nat)
    ensures |s| <= n <= 2 * |s|
  {
    if s == [] then 0
    else (if s[0] as int > 0xFFFF then 2 else 1) + Utf16Length(s[1..])
  }

  /** A string of Basic Multilingual Plane characters (ASCII among them) has one unit per character. */
  lemma {:induction false} Utf16LengthBmp(s: string)
    requires forall k :: 0 <= k < |s| ==> s[k] as int <= 0xFFFF
    ensures Utf16Length(s) == |s|
  {
    if s != [] {
      Utf16LengthBmp(s[1..]);
    }
  }

  /** A string of characters outside the Basic Multilingual Plane (emoji, say) has two units per character. */
  lemma {:induction false} Utf16LengthAstral(s: string)
    requires forall k :: 0 <= k < |s| ==> s[k] as int > 0xFFFF
    ensures Utf16Length(s) == 2 * |s|
  {
    if s != [] {
      Utf16LengthAstral(s[1..]);
    }
  }

  /** The `trim` setter on an optional value. */
  function TrimOption(s: Option<string>): Option<string> {
    match s
    case None => None
    case Some(v) => Some(Trim(v))
  }

  /** The `trim: true, lowercase: true` setters of `uniqueId`. */
  function NormalizeId(s: string): string {
    Lower(Trim(s))
  }

  /** `replace(/\s+/g, "-")`: every maximal run of whitespace becomes one hyphen. */
  function CollapseSpaces(s: string): string
    decreases |s|
  {
    if s == [] then []
    else if IsSpace(s[0]) then "-" + CollapseSpaces(DropSpaces(s))
    else [s[0]] + CollapseSpaces(s[1..])
  }

  /** The event `uniqueId` derived from its title in the event controller. */
  function Slugify(title: string): string {
    CollapseSpaces(Lower(title))
  }

  lemma LowerCharFacts(c: char)
    ensures LowerChar(LowerChar(c)) == LowerChar(c)
    ensures IsSpace(LowerChar(c)) == IsSpace(c)
  {
  }

  lemma LowerIsLowercase(s: string)
    ensures IsLowercase(Lower(s))
  {
    forall i | 0 <= i < |s| ensures LowerChar(Lower(s)[i]) == Lower(s)[i] {
      LowerCharFacts(s[i]);
    }
  }

  /** A run of whitespace followed by a non-space (or nothing) collapses to exactly one hyphen. */
  lemma {:induction false} RunCollapses(run: string, rest: string)
    requires |run| > 0 && forall i :: 0 <= i < |run| ==> IsSpace(run[i])
    requires rest == [] || !IsSpace(rest[0])
    ensures CollapseSpaces(run + rest) == "-" + CollapseSpaces(rest)
  {
    DropsWholeRun(run, rest);
  }

  /**
   * A maximal run of whitespace anywhere in the string (after a prefix that does not end in
   * whitespace, before a rest that does not start with it) becomes exactly one hyphen, and the
   * text on either side is collapsed on its own.
   */
  lemma {:induction false} RunCollapsesAnywhere(a: string, run: string, rest: string)
    requires a == [] || !IsSpace(a[|a| - 1])
    requires |run| > 0 && forall i :: 0 <= i < |run| ==> IsSpace(run[i])
    requires rest == [] || !IsSpace(rest[0])
    ensures CollapseSpaces(a + run + rest) == CollapseSpaces(a) + ("-" + CollapseSpaces(rest))
  {
    var x := run + rest;
    assert a + run + rest == a + x;
    CollapseAppend(a, x);
    RunCollapses(run, rest);
  }

  /** Behind a prefix that does not end in whitespace no run straddles the seam, so the two parts collapse separately. */
  lemma {:induction false} CollapseAppend(a: string, x: string)
    requires a == [] || !IsSpace(a[|a| - 1])
    ensures CollapseSpaces(a + x) == CollapseSpaces(a) + CollapseSpaces(x)
    decreases |a|
  {
    if a == [] {
      assert a + x == x;
    } else if !IsSpace(a[0]) {
      assert (a + x)[1..] == a[1..] + x;
      CollapseAppend(a[1..], x);
    } else {
      DropSpacesAppend(a, x);
      CollapseAppend(DropSpaces(a), x);
    }
  }

  /** The leading run of a string that ends in a non-space ends inside it, so appending does not reach it. */
  lemma {:induction false} DropSpacesAppend(a: string, x: string)
    requires a != [] && !IsSpace(a[|a| - 1])
    ensures DropSpaces(a + x) == DropSpaces(a) + x
    decreases |a|
  {
    if IsSpace(a[0]) {
      assert (a + x)[1..] == a[1..] + x;
      DropSpacesAppend(a[1..], x);
    }
  }

  lemma {:induction false} DropsWholeRun(run: string, rest: string)
    requires forall i :: 0 <= i < |run| ==> IsSpace(run[i])
    requires rest == [] || !IsSpace(rest[0])
    ensures DropSpaces(run + rest) == rest
  {
    if run != [] {
      assert (run + rest)[1..] == run[1..] + rest;
      DropsWholeRun(run[1..], rest);
    } else {
      assert run + rest == rest;
    }
  }

  /** Every character of the collapsed string is a hyphen or a non-space character of the input. */
  lemma {:induction false} CollapseChars(s: string)
    ensures forall i :: 0 <= i < |CollapseSpaces(s)| ==>
      CollapseSpaces(s)[i] == '-' || (CollapseSpaces(s)[i] in s && !IsSpace(CollapseSpaces(s)[i]))
    decreases |s|
  {
    if s == [] {
    } else if IsSpace(s[0]) {
      var d := DropSpaces(s);
      CollapseChars(d);
      forall c | c in d ensures c in s {
        var j :| 0 <= j < |d| && d[j] == c;
        assert s[|s| - |d| + j] == c;
      }
    } else {
      CollapseChars(s[1..]);
      forall c | c in s[1..] ensures c in s {
        var j :| 0 <= j < |s| - 1 && s[1..][j] == c;
        assert s[j + 1] == c;
      }
    }
  }

  lemma CollapseNoSpace(s: string)
    ensures NoSpace(CollapseSpaces(s))
  {
    CollapseChars(s);
  }

  /** Strings without whitespace are left alone by the replacement. */
  lemma {:induction false} CollapseIdentity(s: string)
    requires NoSpace(s)
    ensures CollapseSpaces(s) == s
    decreases |s|
  {
    if s != [] {
      CollapseIdentity(s[1..]);
      assert [s[0]] + s[1..] == s;
    }
  }

  lemma CollapseKeepsLowercase(s: string)
    requires IsLowercase(s)
    ensures IsLowercase(CollapseSpaces(s))
  {
    CollapseChars(s);
  }

  /** The slug contains no whitespace and is already lowercase. */
  lemma SlugShape(title: string)
    ensures NoSpace(Slugify(title)) && IsLowercase(Slugify(title))
  {
    CollapseNoSpace(Lower(title));
    LowerIsLowercase(title);
    CollapseKeepsLowercase(Lower(title));
  }

  lemma LowercaseFixed(s: string)
    requires IsLowercase(s)
    ensures Lower(s) == s
  {
  }

  /** Deriving the slug twice gives the slug. */
  lemma SlugIdempotent(title: string)
    ensures Slugify(Slugify(title)) == Slugify(title)
  {
    var x := Slugify(title);
    SlugShape(title);
    LowercaseFixed(x);
    CollapseIdentity(x);
  }

  /** A string is its own slug exactly when it is lowercase and free of whitespace. */
  lemma SlugFixedPoint(s: string)
    ensures Slugify(s) == s <==> NoSpace(s) && IsLowercase(s)
  {
    SlugShape(s);
    if NoSpace(s) && IsLowercase(s) {
      LowercaseFixed(s);
      CollapseIdentity(s);
    }
  }

  /** The slug passes the `uniqueId` setters (trim, lowercase) unchanged. */
  lemma SlugIsNormalized(title: string)
    ensures NormalizeId(Slugify(title)) == Slugify(title)
  {
    var x := Slugify(title);
    SlugShape(title);
    TrimIdentity(x);
    LowercaseFixed(x);
  }

  /**
   * A non-empty title made of ASCII letters, digits, hyphens and whitespace yields a slug that
   * matches the `uniqueId` pattern.
   */
  lemma SlugMatchesPattern(title: string)
    requires |title| > 0
    requires forall i :: 0 <= i < |title| ==>
      IsIdChar(LowerChar(title[i])) || IsSpace(title[i])
    ensures MatchesIdPattern(Slugify(title))
  {
    var l := Lower(title);
    CollapseChars(l);
    var x := CollapseSpaces(l);
    assert |x| > 0;
    forall i | 0 <= i < |x| ensures IsIdChar(x[i]) {
      if x[i] != '-' {
        var j :| 0 <= j < |l| && l[j] == x[i];
        LowerCharFacts(title[j]);
      }
    }
  }

  lemma TrimIdentity(s: string)
    requires NoSpace(s)
    ensures Trim(s) == s
  {
  }

  /** Trimming twice is trimming once. */
  lemma TrimIdempotent(s: string)
    ensures Trim(Trim(s)) == Trim(s)
  {
    var r := Trim(s);
    if r != [] {
      assert DropSpaces(r) == r;
      assert DropTrailingSpaces(r) == r;
    }
  }
}
