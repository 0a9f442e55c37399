/**
 * The few Python `str` operations the bot relies on: `isspace`, `strip`,
 * `lower`, `startswith` and the substring test `p in s`.
 */
module Text {

  /** Python's `str.isspace()` for one character. */
  predicate IsSpace(c: char)
    ensures IsSpace(c) ==> !('0' <= c <= '9' || 'A' <= c <= 'Z' || 'a' <= c <= 'z' || c == '_')
  {
    || ('\t' <= c <= '\r')                  // U+0009 .. U+000D
    || ('\U{1C}' <= c <= '\U{1F}')          // file, group, record and unit separators
    || c == ' ' || c == '\U{85}' || c == '\U{A0}' || c == '\U{1680}'
    || ('\U{2000}' <= c <= '\U{200A}')
    || c == '\U{2028}' || c == '\U{2029}' || c == '\U{202F}' || c == '\U{205F}' || c == '\U{3000}'
  }

  /** Removes the leading characters that satisfy `ws`. */
  function StripStart(s: string, ws: char -> bool): (r: string)
    ensures |r| <= |s| && r == s[|s| - |r|..]
    ensures forall k :: 0 <= k < |s| - |r| ==> ws(s[k])
    ensures r != [] ==> !ws(r[0])
  {
    if |s| > 0 && ws(s[0]) then StripStart(s[1..], ws) else s
  }

  /** Removes the trailing characters that satisfy `ws`. */
  function StripEnd(s: string, ws: char -> bool): (r: string)
    ensures |r| <= |s| && r == s[..|r|]
    ensures forall k :: |r| <= k < |s| ==> ws(s[k])
    ensures r != [] ==> !ws(r[|r| - 1])
  {
    if |s| > 0 && ws(s[|s| - 1]) then StripEnd(s[..|s| - 1], ws) else s
  }

  /** `s.strip()` with the characters of `ws` taken as whitespace. */
  function StripBy(s: string, ws: char -> bool): string {
    StripEnd(StripStart(s, ws), ws)
  }

  /** Python's `s.strip()`: the span of `s` between its whitespace margins,
      empty exactly when `s` is all whitespace. */
  function Strip(s: string): (r: string)
    ensures exists i, j :: TrimmedTo(s, IsSpace, i, j) && r == s[i..j]
    ensures r == [] <==> forall k :: 0 <= k < |s| ==> IsSpace(s[k])
    ensures r != [] ==> !IsSpace(r[0]) && !IsSpace(r[|r| - 1])
  {
    StripByIsInfix(s, IsSpace);
    StripByEmpty(s, IsSpace);
    StripBy(s, IsSpace)
  }

  /** `s[i..j]` is `s` with its whitespace-only margins `s[..i]` and `s[j..]` cut off. */
  ghost predicate TrimmedTo(s: string, ws: char -> bool, i: int, j: int) {
    && 0 <= i <= j <= |s|
    && (forall k :: 0 <= k < i ==> ws(s[k]))
    && (forall k :: j <= k < |s| ==> ws(s[k]))
    && (i < j ==> !ws(s[i]) && !ws(s[j - 1]))
  }

  /** Stripping leaves exactly the characters between the first and the last
      non-whitespace character. */
  lemma StripByIsInfix(s: string, ws: char -> bool)
    ensures exists i, j :: TrimmedTo(s, ws, i, j) && StripBy(s, ws) == s[i..j]
  {
    var t := StripStart(s, ws);
    var r := StripEnd(t, ws);
    if r != [] {
      assert r[0] == t[0];
    }
    TrimmedFromParts(s, t, r, ws, |s| - |t|);
  }

  lemma TrimmedFromParts(s: string, t: string, r: string, ws: char -> bool, i: int)
    requires 0 <= i <= |s| && t == s[i..]
    requires |r| <= |t| && r == t[..|r|]
    requires forall k :: 0 <= k < i ==> ws(s[k])
    requires forall k :: |r| <= k < |t| ==> ws(t[k])
    requires r != [] ==> !ws(r[0]) && !ws(r[|r| - 1])
    ensures TrimmedTo(s, ws, i, i + |r|) && r == s[i..i + |r|]
  {
    var j := i + |r|;
    forall k | j <= k < |s| ensures ws(s[k]) {
      assert s[k] == t[k - i];
    }
  }

  /** The stripped string is empty exactly when every character is whitespace. */
  lemma {:induction false} StripByEmpty(s: string, ws: char -> bool)
    ensures StripBy(s, ws) == [] <==> forall k :: 0 <= k < |s| ==> ws(s[k])
  {
    var t := StripStart(s, ws);
    if t != [] {
      assert !ws(t[0]);
      assert StripEnd(t, ws) != [];
      assert s[|s| - |t|] == t[0];
    }
  }

  /** A string with no whitespace at either end is its own strip. */
  lemma StripByUnchanged(s: string, ws: char -> bool)
    requires s != [] ==> !ws(s[0]) && !ws(s[|s| - 1])
    ensures StripBy(s, ws) == s
  {
  }

  /** Python's `str.lower()` on one character: ASCII letters only. */
  function LowerChar(c: char): char {
    if 'A' <= c <= 'Z' then (c as int + 32) as char else c
  }

  /** Python's `s.lower()`, restricted to ASCII letters. */
  function Lower(s: string): (r: string)
    ensures |r| == |s|
    ensures forall i :: 0 <= i < |s| ==> !('A' <= r[i] <= 'Z')
    ensures forall i :: 0 <= i < |s| && !('A' <= s[i] <= 'Z') ==> r[i] == s[i]
    ensures forall i :: 0 <= i < |s| && 'A' <= s[i] <= 'Z' ==> r[i] == (s[i] as int + 32) as char
  {
    seq(|s|, i requires 0 <= i < |s| => LowerChar(s[i]))
  }

  lemma LowerAppend(s: string, t: string)
    ensures Lower(s + t) == Lower(s) + Lower(t)
  {
    assert forall i :: 0 <= i < |s + t| ==> Lower(s + t)[i] == (Lower(s) + Lower(t))[i];
  }

  /** Lowering twice changes nothing more than lowering once. */
  lemma LowerIdempotent(s: string)
    ensures Lower(Lower(s)) == Lower(s)
  {
  }

  /** Python's `s.startswith(p)`: `s` is `p` followed by the rest. */
  predicate HasPrefix(p: string, s: string)
    ensures HasPrefix(p, s) ==> |p| <= |s| && s == p + s[|p|..]
  {
    |p| <= |s| && s[..|p|] == p
  }

  /** Conversely, `p` followed by anything starts with `p`. */
  lemma PrefixOfConcat(p: string, t: string)
    ensures HasPrefix(p, p + t)
  {
    assert (p + t)[..|p|] == p;
  }

  /** Python's substring test `p in s`. */
  predicate IsInfix(p: string, s: string)
    decreases |s|
  {
    HasPrefix(p, s) || (|s| > 0 && IsInfix(p, s[1..]))
  }

  /** `p` occurs in `s` starting at index `i`. */
  predicate OccursAt(p: string, s: string, i: int) {
    0 <= i <= |s| - |p| && s[i..i + |p|] == p
  }

  /** `p in s` holds exactly when `p` occurs at some position of `s`. */
  lemma {:induction false} IsInfixAt(p: string, s: string)
    ensures IsInfix(p, s) <==> exists i :: OccursAt(p, s, i)
    decreases |s|
  {
    if HasPrefix(p, s) {
      assert OccursAt(p, s, 0);
    } else if |s| > 0 {
      IsInfixAt(p, s[1..]);
      if IsInfix(p, s[1..]) {
        var i :| OccursAt(p, s[1..], i);
        assert s[i + 1..i + 1 + |p|] == s[1..][i..i + |p|];
        assert OccursAt(p, s, i + 1);
      }
      if exists i :: OccursAt(p, s, i) {
        var i :| OccursAt(p, s, i);
        assert i != 0;
        assert s[1..][i - 1..i - 1 + |p|] == s[i..i + |p|];
        assert OccursAt(p, s[1..], i - 1);
      }
    }
  }

  /** An occurrence in `s` remains one in any extension `s + t`. */
  lemma IsInfixExtend(p: string, s: string, t: string)
    requires IsInfix(p, s)
    ensures IsInfix(p, s + t)
  {
    IsInfixAt(p, s);
    var i :| OccursAt(p, s, i);
    assert (s + t)[i..i + |p|] == s[i..i + |p|];
    assert OccursAt(p, s + t, i);
    IsInfixAt(p, s + t);
  }
}
