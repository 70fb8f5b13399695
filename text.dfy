/** The few Python `str` operations the project filter relies on:
    `lower()`, `strip()`, `" ".join(...)` and the substring test `q in hay`.
    Characters are treated with ASCII semantics: only 'A'..'Z' change case,
    and whitespace is the ASCII part of what Python's `str.isspace` accepts. */
module Text {

  // ---------------------------------------------------------------------
  // Characters
  // ---------------------------------------------------------------------

  /** ASCII whitespace as Python's `str.strip()` removes it: space, the
      controls TAB, LF, VT, FF, CR (U+0009..U+000D) and the separators
      U+001C..U+001F. */
  predicate IsSpace(c: char)
    ensures IsSpace(c) ==> c as int <= 0x20 && !IsUpper(c)
  {
    c == ' ' || ('\t' <= c <= '\r') || ('\U{1C}' <= c <= '\U{1F}')
  }

  predicate IsUpper(c: char) {
    'A' <= c <= 'Z'
  }

  /** Python's `str.lower()` on one ASCII character. */
  function LowerChar(c: char): (r: char)
    ensures !IsUpper(r)
    ensures !IsUpper(c) ==> r == c
    ensures IsUpper(c) ==> 'a' <= r <= 'z' && r as int - 'a' as int == c as int - 'A' as int
    ensures IsSpace(r) <==> IsSpace(c)
  {
    if IsUpper(c) then (c as int - 'A' as int + 'a' as int) as char else c
  }

  predicate AllSpace(s: string) {
    forall i :: 0 <= i < |s| ==> IsSpace(s[i])
  }

  predicate NoUpper(s: string) {
    forall i :: 0 <= i < |s| ==> !IsUpper(s[i])
  }

  // ---------------------------------------------------------------------
  // lower()
  // ---------------------------------------------------------------------

  /** Python's `s.lower()`: every character lower-cased, in place. */
  function Lower(s: string): (r: string)
    ensures |r| == |s|
    ensures forall i :: 0 <= i < |s| ==> r[i] == LowerChar(s[i])
    ensures NoUpper(r)
  {
    if s == [] then [] else [LowerChar(s[0])] + Lower(s[1..])
  }

  /** A capital letter and its small letter lower-case alike, so strings
      differing only in the case of letters lower-case to the same string. */
  lemma CapitalAndSmallLowerAlike(c: char, d: char)
    requires IsUpper(c) && d as int == c as int - 'A' as int + 'a' as int
    ensures LowerChar(c) == LowerChar(d)
  {
  }

  /** Lower-casing twice is lower-casing once. */
  lemma LowerIdempotent(s: string)
    ensures Lower(Lower(s)) == Lower(s)
  {
    LowerFixesLowercase(Lower(s));
  }

  /** A string with no upper-case letter is left unchanged by `lower()`. */
  lemma LowerFixesLowercase(s: string)
    requires NoUpper(s)
    ensures Lower(s) == s
  {
    assert forall i :: 0 <= i < |s| ==> Lower(s)[i] == s[i];
  }

  /** `lower()` works character by character, so it distributes over concatenation. */
  lemma LowerAppend(a: string, b: string)
    ensures Lower(a + b) == Lower(a) + Lower(b)
  {
    assert forall i :: 0 <= i < |a + b| ==> Lower(a + b)[i] == (Lower(a) + Lower(b))[i];
  }

  /** `lower()` commutes with taking a slice. */
  lemma LowerSlice(s: string, i: nat, j: nat)
    requires i <= j <= |s|
    ensures Lower(s)[i..j] == Lower(s[i..j])
  {
    assert forall k :: 0 <= k < j - i ==> Lower(s)[i..j][k] == Lower(s[i..j])[k];
  }

  // ---------------------------------------------------------------------
  // strip()
  // ---------------------------------------------------------------------

  /** Number of whitespace characters at the front of `s`. */
  function LeadingSpaces(s: string): (n: nat)
    ensures n <= |s|
    ensures forall i :: 0 <= i < n ==> IsSpace(s[i])
    ensures n < |s| ==> !IsSpace(s[n])
  {
    if s == [] || !IsSpace(s[0]) then 0 else 1 + LeadingSpaces(s[1..])
  }

  /** Number of whitespace characters at the back of `s`. */
  function TrailingSpaces(s: string): (n: nat)
    ensures n <= |s|
    ensures forall i :: |s| - n <= i < |s| ==> IsSpace(s[i])
    ensures n < |s| ==> !IsSpace(s[|s| - 1 - n])
  {
    if s == [] || !IsSpace(s[|s| - 1]) then 0 else 1 + TrailingSpaces(s[..|s| - 1])
  }

  /** A string with no whitespace at either end. */
  predicate Trimmed(s: string) {
    s == [] || (!IsSpace(s[0]) && !IsSpace(s[|s| - 1]))
  }

  /** Python's `s.strip()`: drop the leading, then the trailing whitespace.
      The result is the trimmed core that `s` pads with whitespace. */
  function Strip(s: string): (r: string)
    ensures Trimmed(r)
    ensures exists a, b :: AllSpace(a) && AllSpace(b) && s == a + r + b
  {
    var lo := LeadingSpaces(s);
    var rest := s[lo..];
    var hi := |rest| - TrailingSpaces(rest);
    var r := rest[..hi];
    var a, b := s[..lo], rest[hi..];
    assert AllSpace(a) by {
      forall i | 0 <= i < |a| ensures IsSpace(a[i]) { assert a[i] == s[i]; }
    }
    assert AllSpace(b) by {
      forall i | 0 <= i < |b| ensures IsSpace(b[i]) { assert b[i] == rest[hi + i]; }
    }
    assert s == a + r + b;
    assert r != [] ==> r[0] == s[lo] && r[|r| - 1] == rest[hi - 1];
    r
  }

  /** `LeadingSpaces` finds exactly the whitespace prefix in front of a
      character that is not whitespace. */
  lemma LeadingSpacesOfPadded(a: string, t: string)
    requires AllSpace(a) && t != [] && !IsSpace(t[0])
    ensures LeadingSpaces(a + t) == |a|
  {
    var s := a + t;
    assert !IsSpace(s[|a|]);
    assert forall k :: 0 <= k < |a| ==> IsSpace(s[k]) by {
      forall k | 0 <= k < |a| ensures IsSpace(s[k]) { assert s[k] == a[k]; }
    }
  }

  /** `TrailingSpaces` finds exactly the whitespace suffix behind a
      character that is not whitespace. */
  lemma TrailingSpacesOfPadded(t: string, b: string)
    requires AllSpace(b) && t != [] && !IsSpace(t[|t| - 1])
    ensures TrailingSpaces(t + b) == |b|
  {
    var s := t + b;
    assert !IsSpace(s[|t| - 1]);
    assert forall k :: |t| <= k < |s| ==> IsSpace(s[k]) by {
      forall k | |t| <= k < |s| ensures IsSpace(s[k]) { assert s[k] == b[k - |t|]; }
    }
  }

  /** A string made only of whitespace strips to the empty string. */
  lemma StripAllSpace(s: string)
    requires AllSpace(s)
    ensures Strip(s) == []
  {
  }

  /** The trimmed core of a padded string is unique: whatever whitespace
      surrounds a trimmed `t`, `strip()` returns exactly `t`. */
  lemma StripOfPadded(a: string, t: string, b: string)
    requires AllSpace(a) && AllSpace(b) && Trimmed(t)
    ensures Strip(a + t + b) == t
  {
    var s := a + t + b;
    if t == [] {
      assert s == a + b;
      AllSpaceAppend(a, b);
      StripAllSpace(s);
    } else {
      assert s == a + (t + b);
      LeadingSpacesOfPadded(a, t + b);
      assert s[|a|..] == t + b;
      TrailingSpacesOfPadded(t, b);
    }
  }

  lemma AllSpaceAppend(x: string, y: string)
    requires AllSpace(x) && AllSpace(y)
    ensures AllSpace(x + y)
  {
    forall i | 0 <= i < |x + y| ensures IsSpace((x + y)[i]) {
      if i < |x| { assert (x + y)[i] == x[i]; } else { assert (x + y)[i] == y[i - |x|]; }
    }
  }

  lemma Regroup(a: string, a': string, t: string, b': string, b: string)
    ensures a + (a' + t + b') + b == (a + a') + t + (b' + b)
  {
  }

  /** Extra whitespace around a string does not change what it strips to. */
  lemma StripIgnoresPadding(a: string, s: string, b: string)
    requires AllSpace(a) && AllSpace(b)
    ensures Strip(a + s + b) == Strip(s)
  {
    var t := Strip(s);
    var a', b' :| AllSpace(a') && AllSpace(b') && s == a' + t + b';
    Regroup(a, a', t, b', b);
    AllSpaceAppend(a, a');
    AllSpaceAppend(b', b);
    StripOfPadded(a + a', t, b' + b);
  }

  /** Stripping is idempotent. */
  lemma StripIdempotent(s: string)
    ensures Strip(Strip(s)) == Strip(s)
  {
    StripOfPadded([], Strip(s), []);
    assert [] + Strip(s) + [] == Strip(s);
  }

  // ---------------------------------------------------------------------
  // " ".join(...)
  // ---------------------------------------------------------------------

  /** Total length of the parts. */
  function TotalLength(parts: seq<string>): nat {
    if parts == [] then 0 else |parts[0]| + TotalLength(parts[1..])
  }

  /** Python's `sep.join(parts)`: the parts in order, with `sep` between
      neighbours and nowhere else. No parts give the empty string, one part
      gives itself, and the length is that of the parts plus one `sep` per
      pair of neighbours; `JoinAppend` states how joins of longer lists split. */
  function Join(sep: string, parts: seq<string>): (r: string)
    ensures |parts| == 0 ==> r == []
    ensures |parts| == 1 ==> r == parts[0]
    ensures |parts| > 0 ==> |r| == TotalLength(parts) + (|parts| - 1) * |sep|
    ensures |parts| > 0 ==> IsPrefix(parts[0], r)
    ensures forall k :: 0 <= k < |parts| ==> IsSubstring(parts[k], r)
  {
    if |parts| == 0 then ""
    else if |parts| == 1 then parts[0]
    else
      var tail := Join(sep, parts[1..]);
      var r := parts[0] + sep + tail;
      assert IsPrefix(parts[0], r);
      assert forall k :: 1 <= k < |parts| ==> IsSubstring(parts[k], r) by {
        forall k | 1 <= k < |parts| ensures IsSubstring(parts[k], r) {
          assert parts[1..][k - 1] == parts[k];
          SubstringOfSuffix(parts[k], tail, parts[0] + sep);
          assert (parts[0] + sep) + tail == r;
        }
      }
      PrefixIsSubstring(parts[0], r);
      r
  }

  /** Joining two non-empty lists end to end is joining each and putting one
      `sep` between the results: `sep` stands between neighbours and nowhere else. */
  lemma {:induction false} JoinAppend(sep: string, xs: seq<string>, ys: seq<string>)
    requires xs != [] && ys != []
    ensures Join(sep, xs + ys) == Join(sep, xs) + sep + Join(sep, ys)
  {
    assert (xs + ys)[0] == xs[0];
    if |xs| == 1 {
      assert (xs + ys)[1..] == ys;
    } else {
      assert (xs + ys)[1..] == xs[1..] + ys;
      JoinAppend(sep, xs[1..], ys);
    }
  }

  // ---------------------------------------------------------------------
  // The substring test `needle in hay`
  // ---------------------------------------------------------------------

  predicate IsPrefix(needle: string, hay: string) {
    |needle| <= |hay| && hay[..|needle|] == needle
  }

  /** Python's `needle in hay` for two strings: `needle` starts at some
      position of `hay`. The empty string is in every string. */
  predicate IsSubstring(needle: string, hay: string)
    ensures needle == [] ==> IsSubstring(needle, hay)
    ensures IsSubstring(needle, hay) ==> |needle| <= |hay|
    decreases |hay|
  {
    IsPrefix(needle, hay) || (|hay| > 0 && IsSubstring(needle, hay[1..]))
  }

  /** `needle` occurs in `hay` at position `i`. */
  predicate OccursAt(needle: string, hay: string, i: int) {
    0 <= i && i + |needle| <= |hay| && hay[i..i + |needle|] == needle
  }

  /** The recursive test agrees with the direct definition: `needle in hay`
      holds exactly when `needle` occurs at some position of `hay`. */
  lemma {:induction false} SubstringIffOccurs(needle: string, hay: string)
    ensures IsSubstring(needle, hay) <==> exists i :: OccursAt(needle, hay, i)
    decreases |hay|
  {
    if IsSubstring(needle, hay) {
      if IsPrefix(needle, hay) {
        assert OccursAt(needle, hay, 0);
      } else {
        SubstringIffOccurs(needle, hay[1..]);
        var i :| OccursAt(needle, hay[1..], i);
        assert hay[1..][i..i + |needle|] == hay[i + 1..i + 1 + |needle|];
        assert OccursAt(needle, hay, i + 1);
      }
    }
    if exists i :: OccursAt(needle, hay, i) {
      var i :| OccursAt(needle, hay, i);
      SubstringAt(needle, hay, i);
    }
  }

  /** A witness position establishes `needle in hay`. */
  lemma {:induction false} SubstringAt(needle: string, hay: string, i: nat)
    requires OccursAt(needle, hay, i)
    ensures IsSubstring(needle, hay)
    decreases i
  {
    if i > 0 {
      assert hay[1..][i - 1..i - 1 + |needle|] == hay[i..i + |needle|];
      SubstringAt(needle, hay[1..], i - 1);
    }
  }

  lemma PrefixIsSubstring(needle: string, hay: string)
    requires IsPrefix(needle, hay)
    ensures IsSubstring(needle, hay)
  {
  }

  /** Whatever occurs in `hay` also occurs in `front + hay`. */
  lemma SubstringOfSuffix(needle: string, hay: string, front: string)
    requires IsSubstring(needle, hay)
    ensures IsSubstring(needle, front + hay)
  {
    SubstringIffOccurs(needle, hay);
    var i :| OccursAt(needle, hay, i);
    assert (front + hay)[|front| + i..|front| + i + |needle|] == hay[i..i + |needle|];
    SubstringAt(needle, front + hay, |front| + i);
  }

  /** Occurrence is transitive: a substring of a substring is a substring. */
  lemma SubstringTransitive(a: string, b: string, c: string)
    requires IsSubstring(a, b) && IsSubstring(b, c)
    ensures IsSubstring(a, c)
  {
    SubstringIffOccurs(a, b);
    SubstringIffOccurs(b, c);
    var i :| OccursAt(a, b, i);
    var j :| OccursAt(b, c, j);
    forall k | 0 <= k < |a| ensures c[j + i + k] == a[k] {
      assert c[j + i + k] == c[j..j + |b|][i + k];
      assert b[i + k] == b[i..i + |a|][k];
    }
    assert c[j + i..j + i + |a|] == a;
    SubstringAt(a, c, j + i);
  }

  /** Lower-casing both sides keeps an occurrence: if `a in b` then
      `a.lower() in b.lower()`. */
  lemma SubstringLower(a: string, b: string)
    requires IsSubstring(a, b)
    ensures IsSubstring(Lower(a), Lower(b))
  {
    SubstringIffOccurs(a, b);
    var i :| OccursAt(a, b, i);
    LowerSlice(b, i, i + |a|);
    SubstringAt(Lower(a), Lower(b), i);
  }

  // ---------------------------------------------------------------------
  // Query normalisation: `raw.lower().strip()`
  // ---------------------------------------------------------------------

  /** The search box text as the filter uses it: lower-cased, then stripped. */
  function Normalize(raw: string): (q: string)
    ensures Trimmed(q)
    ensures NoUpper(q)
    ensures exists a, b :: AllSpace(a) && AllSpace(b) && Lower(raw) == a + q + b
  {
    var q := Strip(Lower(raw));
    var a, b :| AllSpace(a) && AllSpace(b) && Lower(raw) == a + q + b;
    assert NoUpper(q) by {
      forall i | 0 <= i < |q| ensures !IsUpper(q[i]) {
        assert q[i] == Lower(raw)[|a| + i];
      }
    }
    q
  }

  /** Normalising an already normalised query changes nothing. */
  lemma NormalizeIdempotent(raw: string)
    ensures Normalize(Normalize(raw)) == Normalize(raw)
  {
    var q := Normalize(raw);
    LowerFixesLowercase(q);
    StripOfPadded([], q, []);
    assert [] + q + [] == q;
  }

  /** Case does not matter: raw inputs that lower-case alike normalise alike,
      and in particular `raw` and `raw.lower()` do. */
  lemma NormalizeIgnoresCase(raw: string)
    ensures Normalize(Lower(raw)) == Normalize(raw)
  {
    LowerIdempotent(raw);
  }

  /** Whitespace typed around the query does not matter. */
  lemma NormalizeIgnoresPadding(a: string, raw: string, b: string)
    requires AllSpace(a) && AllSpace(b)
    ensures Normalize(a + raw + b) == Normalize(raw)
  {
    LowerAppend(a + raw, b);
    LowerAppend(a, raw);
    LowerFixesLowercase(a);
    LowerFixesLowercase(b);
    StripIgnoresPadding(a, Lower(raw), b);
  }
}
