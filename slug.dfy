/**
 * The slug a heading's `innerHTML` is turned into before it becomes the
 * heading's `id`: the string is lower-cased and then the FIRST space (only
 * the first one) is replaced by a hyphen, as JavaScript's
 * `String.prototype.replace` does when its pattern is a string rather than
 * a global regular expression (section 22.1.3.18 of ECMA-262, 2022 edition).
 *
 * Lower-casing is restricted to the ASCII letters `A`..`Z`; every other
 * character is left as it is.
 */
module Slugs {

  predicate IsAsciiUpper(c: char) {
    'A' <= c <= 'Z'
  }

  predicate IsAsciiLower(c: char) {
    'a' <= c <= 'z'
  }

  /** `toLowerCase` on one character, restricted to ASCII. */
  function LowerAscii(c: char): (r: char)
    ensures !IsAsciiUpper(r)
    ensures IsAsciiUpper(c) ==> IsAsciiLower(r) && r as int == c as int + ('a' as int - 'A' as int)
    ensures !IsAsciiUpper(c) ==> r == c
  {
    if IsAsciiUpper(c) then (c as int - 'A' as int + 'a' as int) as char else c
  }

  /** `String.prototype.toLowerCase`, one character at a time. */
  function ToLowerCase(s: string): (r: string)
    ensures |r| == |s|
  {
    if s == [] then [] else [LowerAscii(s[0])] + ToLowerCase(s[1..])
  }

  /** `toLowerCase` lower-cases each character in place. */
  lemma {:induction false} ToLowerCaseAt(s: string)
    ensures forall i :: 0 <= i < |s| ==> ToLowerCase(s)[i] == LowerAscii(s[i])
  {
    if s != [] {
      ToLowerCaseAt(s[1..]);
    }
  }

  /**
   * `String.prototype.indexOf` for a one-character pattern: the index of the
   * first occurrence of `c` in `s`, or -1 when there is none.
   */
  function IndexOf(s: string, c: char): (r: int)
    ensures r == -1 <==> c !in s
    ensures r != -1 ==> 0 <= r < |s| && s[r] == c
    ensures forall j :: 0 <= j < r && j < |s| ==> s[j] != c
  {
    if s == [] then -1
    else if s[0] == c then 0
    else
      var k := IndexOf(s[1..], c);
      if k == -1 then -1 else k + 1
  }

  /**
   * `s.replace(pattern, replacement)` for a one-character string pattern and
   * a one-character replacement that holds no `$` substitution pattern: the
   * first occurrence of `pattern` is replaced, later ones are kept.
   */
  function ReplaceFirst(s: string, pattern: char, replacement: char): (r: string)
    ensures |r| == |s|
  {
    if s == [] then []
    else if s[0] == pattern then [replacement] + s[1..]
    else [s[0]] + ReplaceFirst(s[1..], pattern, replacement)
  }

  /**
   * `replace` puts the replacement where `indexOf` finds the pattern and
   * copies every other character.
   */
  lemma {:induction false} ReplaceFirstAt(s: string, pattern: char, replacement: char)
    ensures forall i :: 0 <= i < |s| ==>
      ReplaceFirst(s, pattern, replacement)[i] == if i == IndexOf(s, pattern) then replacement else s[i]
  {
    if s != [] && s[0] != pattern {
      ReplaceFirstAt(s[1..], pattern, replacement);
    }
  }

  /**
   * The `id` the script gives a heading whose `innerHTML` is `content`.
   * What it holds at each position is stated by SlugMatchesReference.
   */
  function Slug(content: string): (r: string)
    ensures |r| == |content|
  {
    ReplaceFirst(ToLowerCase(content), ' ', '-')
  }

  /**
   * Reference definition of the slug, one position at a time, that does not
   * go through `indexOf`: position `i` becomes a hyphen exactly when it holds
   * a space and no earlier position does; every other position is lower-cased.
   */
  function SlugChar(s: string, i: nat): char
    requires i < |s|
  {
    if s[i] == ' ' && ' ' !in s[..i] then '-' else LowerAscii(s[i])
  }

  /** Lower-casing moves no space: the first space is where it was. */
  lemma {:induction false} LowerKeepsFirstSpace(s: string)
    ensures IndexOf(ToLowerCase(s), ' ') == IndexOf(s, ' ')
  {
    if s != [] {
      ToLowerCaseAt(s);
      LowerKeepsFirstSpace(s[1..]);
      assert ToLowerCase(s)[1..] == ToLowerCase(s[1..]);
    }
  }

  /** The slug agrees, position by position, with the reference definition. */
  lemma SlugMatchesReference(s: string)
    ensures |Slug(s)| == |s|
    ensures forall i :: 0 <= i < |s| ==> Slug(s)[i] == SlugChar(s, i)
  {
    LowerKeepsFirstSpace(s);
    ToLowerCaseAt(s);
    ReplaceFirstAt(ToLowerCase(s), ' ', '-');
    var k := IndexOf(s, ' ');
    forall i | 0 <= i < |s|
      ensures Slug(s)[i] == SlugChar(s, i)
    {
      if i < k {
        assert s[i] in s[..k];
      } else if k != -1 && i > k {
        assert s[k] == s[..i][k];
      }
    }
  }

  /** Conversely, a string that agrees with the reference definition is the slug. */
  lemma SlugUnique(s: string, r: string)
    requires |r| == |s|
    requires forall i :: 0 <= i < |s| ==> r[i] == SlugChar(s, i)
    ensures r == Slug(s)
  {
    SlugMatchesReference(s);
  }

  /** Only the empty `innerHTML` gives the empty `id`; a heading of spaces gets a hyphen. */
  lemma SlugEmptyIff(s: string)
    ensures Slug(s) == [] <==> s == []
  {
  }

  /**
   * When the input has a space, the slug has a hyphen at the first one and
   * the lower-cased input everywhere else, later spaces included.
   */
  lemma SlugAtFirstSpace(s: string, k: nat)
    requires k < |s| && s[k] == ' ' && ' ' !in s[..k]
    ensures |Slug(s)| == |s| && Slug(s)[k] == '-'
    ensures forall i :: 0 <= i < |s| && i != k ==> Slug(s)[i] == LowerAscii(s[i])
    ensures forall j :: k < j < |s| && s[j] == ' ' ==> Slug(s)[j] == ' '
  {
    SlugMatchesReference(s);
    forall i | 0 <= i < |s| && i != k
      ensures Slug(s)[i] == LowerAscii(s[i])
    {
      if i < k {
        assert s[i] in s[..k];
      } else {
        assert s[k] == s[..i][k];
      }
    }
  }

  /** Without a space the slug is the lower-cased input, and no hyphen is introduced. */
  lemma SlugWithoutSpace(s: string)
    requires ' ' !in s
    ensures Slug(s) == ToLowerCase(s)
    ensures '-' in Slug(s) <==> '-' in s
  {
    LowerKeepsFirstSpace(s);
    ToLowerCaseAt(s);
    ReplaceFirstAt(ToLowerCase(s), ' ', '-');
    var r := Slug(s);
    if '-' in r {
      var i :| 0 <= i < |r| && r[i] == '-';
      assert s[i] == '-';
    }
    if '-' in s {
      var i :| 0 <= i < |s| && s[i] == '-';
      assert r[i] == '-';
    }
  }

  /**
   * The slug holds no ASCII upper-case letter, and every character of the
   * input that is neither a space nor upper-case is copied to the same index.
   */
  lemma SlugIsLowerCase(s: string)
    ensures forall i :: 0 <= i < |Slug(s)| ==> !IsAsciiUpper(Slug(s)[i])
    ensures forall i :: 0 <= i < |s| && s[i] != ' ' && !IsAsciiUpper(s[i]) ==> Slug(s)[i] == s[i]
  {
    SlugMatchesReference(s);
  }

  /** Conversely to SlugAtFirstSpace: a hyphen at the first space and lower case elsewhere is the slug. */
  lemma SlugWithHyphenAt(s: string, r: string, k: nat)
    requires k < |s| && s[k] == ' ' && ' ' !in s[..k]
    requires |r| == |s| && r[k] == '-'
    requires forall i :: 0 <= i < |s| && i != k ==> r[i] == LowerAscii(s[i])
    ensures Slug(s) == r
  {
    SlugAtFirstSpace(s, k);
  }

  /** Conversely to SlugWithoutSpace: without a space, the lower-cased input is the slug. */
  lemma SlugLoweredWithoutSpace(s: string, r: string)
    requires ' ' !in s
    requires |r| == |s|
    requires forall i :: 0 <= i < |s| ==> r[i] == LowerAscii(s[i])
    ensures Slug(s) == r
  {
    SlugWithoutSpace(s);
    ToLowerCaseAt(s);
  }

  /** Only the first space becomes a hyphen. */
  lemma QuickStartGuide()
    ensures Slug("Quick Start Guide") == "quick-start guide"
  {
    SlugWithHyphenAt("Quick Start Guide", "quick-start guide", 5);
  }

  /** A space becomes a hyphen, and upper case becomes lower case. */
  lemma GettingStartedId()
    ensures Slug("Getting Started") == "getting-started"
  {
    SlugWithHyphenAt("Getting Started", "getting-started", 7);
  }

  /** A heading with no space only has its case flattened. */
  lemma GettingHyphenStartedId()
    ensures Slug("Getting-Started") == "getting-started"
  {
    SlugLoweredWithoutSpace("Getting-Started", "getting-started");
  }

  /** Two different headings can get the same `id`: nothing makes ids unique. */
  lemma GettingStartedCollision()
    ensures Slug("Getting Started") == Slug("Getting-Started")
  {
    GettingStartedId();
    GettingHyphenStartedId();
  }
}
