/**
 * The ECMAScript string built-ins the normaliser relies on:
 * `String.prototype.trim`, `replace` with a global pattern (every
 * occurrence) and `replace` with a string pattern (first occurrence only).
 * Strings are sequences of code points; no normalisation is applied.
 */
module JsString {

  /** ECMAScript WhiteSpace and LineTerminator code points, the set `trim` and `parseFloat` skip. */
  predicate IsWhiteSpace(c: char) {
    || c == '\t' || c == '\n' || c == '\U{000B}' || c == '\U{000C}' || c == '\r'
    || c == ' ' || c == '\U{00A0}' || c == '\U{1680}'
    || ('\U{2000}' <= c <= '\U{200A}')
    || c == '\U{2028}' || c == '\U{2029}' || c == '\U{202F}' || c == '\U{205F}'
    || c == '\U{3000}' || c == '\U{FEFF}'
  }

  /** Drops leading white space: the result is the suffix starting at the first other character. */
  function TrimStart(s: string): (r: string)
    ensures |r| <= |s| && r == s[|s| - |r|..]
    ensures forall k :: 0 <= k < |s| - |r| ==> IsWhiteSpace(s[k])
    ensures r != [] ==> !IsWhiteSpace(r[0])
  {
    if s != [] && IsWhiteSpace(s[0]) then TrimStart(s[1..]) else s
  }

  /** Drops trailing white space: the result is the prefix ending at the last other character. */
  function TrimEnd(s: string): (r: string)
    ensures |r| <= |s| && r == s[..|r|]
    ensures forall k :: |r| <= k < |s| ==> IsWhiteSpace(s[k])
    ensures r != [] ==> !IsWhiteSpace(r[|r| - 1])
  {
    if s != [] && IsWhiteSpace(s[|s| - 1]) then TrimEnd(s[..|s| - 1]) else s
  }

  /**
   * `String.prototype.trim`: white space removed at both ends, nothing else
   * touched. `TrimIsSlice` and `TrimSurrounded` fix its value exactly.
   */
  function Trim(s: string): (r: string)
    ensures |r| <= |s|
    ensures r != [] ==> !IsWhiteSpace(r[0]) && !IsWhiteSpace(r[|r| - 1])
    ensures forall c :: c in r ==> c in s
  {
    TrimEnd(TrimStart(s))
  }

  /** `trim` keeps one slice of its input and cuts off only white space before and after it. */
  lemma {:induction false} TrimIsSlice(s: string)
    ensures exists i, j :: 0 <= i <= j <= |s| && Trim(s) == s[i..j] && AllWhiteSpace(s[..i]) && AllWhiteSpace(s[j..])
  {
    var t := TrimStart(s);
    var r := TrimEnd(t);
    var i := |s| - |t|;
    var j := i + |r|;
    LeadingWhiteSpace(s);
    TrailingWhiteSpace(t);
    assert s[i..j] == r && s[j..] == t[|r|..];
  }

  /** A text ending in a character other than white space keeps that character last when trimmed. */
  lemma {:induction false} TrimKeepsLast(s: string)
    requires s != [] && !IsWhiteSpace(s[|s| - 1])
    ensures Trim(s) != [] && Trim(s)[|Trim(s)| - 1] == s[|s| - 1]
  {
    var r := TrimStart(s);
    assert r != [];
    assert r[|r| - 1] == s[|s| - 1];
    assert TrimEnd(r) == r;
  }

  predicate AllWhiteSpace(w: string) {
    forall k :: 0 <= k < |w| ==> IsWhiteSpace(w[k])
  }
  /** The white space `TrimStart` drops is the prefix before what it keeps. */
  lemma {:induction false} LeadingWhiteSpace(s: string)
    ensures AllWhiteSpace(s[..|s| - |TrimStart(s)|])
  {
    var i := |s| - |TrimStart(s)|;
    forall k | 0 <= k < i ensures IsWhiteSpace(s[..i][k]) {
      assert s[..i][k] == s[k];
    }
  }

  /** The white space `TrimEnd` drops is the suffix after what it keeps. */
  lemma {:induction false} TrailingWhiteSpace(t: string)
    ensures AllWhiteSpace(t[|TrimEnd(t)|..])
  {
    var j := |TrimEnd(t)|;
    forall k | 0 <= k < |t| - j ensures IsWhiteSpace(t[j..][k]) {
      assert t[j..][k] == t[j + k];
    }
  }



  lemma {:induction false} TrimStartSkips(w: string, t: string)
    requires AllWhiteSpace(w)
    requires t == [] || !IsWhiteSpace(t[0])
    ensures TrimStart(w + t) == t
  {
    if w != [] {
      assert (w + t)[1..] == w[1..] + t;
      TrimStartSkips(w[1..], t);
    }
  }

  lemma {:induction false} TrimEndSkips(t: string, w: string)
    requires AllWhiteSpace(w)
    requires t == [] || !IsWhiteSpace(t[|t| - 1])
    ensures TrimEnd(t + w) == t
  {
    if w != [] {
      var w' := w[..|w| - 1];
      assert (t + w)[..|t + w| - 1] == t + w';
      TrimEndSkips(t, w');
    } else {
      assert t + w == t;
    }
  }

  /**
   * `trim` is exactly "strip the surrounding white space": any text whose
   * ends are not white space is recovered from itself padded on both sides.
   */
  lemma {:induction false} TrimSurrounded(w1: string, t: string, w2: string)
    requires AllWhiteSpace(w1) && AllWhiteSpace(w2)
    requires t != [] ==> !IsWhiteSpace(t[0]) && !IsWhiteSpace(t[|t| - 1])
    ensures Trim(w1 + t + w2) == t
  {
    if t == [] {
      var w := w1 + w2;
      assert AllWhiteSpace(w) by {
        forall k | 0 <= k < |w| ensures IsWhiteSpace(w[k]) {
          if k >= |w1| { assert w[k] == w2[k - |w1|]; }
        }
      }
      assert w1 + t + w2 == w + [];
      TrimStartSkips(w, []);
      TrimEndSkips([], []);
    } else {
      assert w1 + t + w2 == w1 + (t + w2);
      assert (t + w2)[0] == t[0];
      TrimStartSkips(w1, t + w2);
      TrimEndSkips(t, w2);
    }
  }

  /** `s.replace(/c/g, '')`: every occurrence of `c` deleted, every other character kept. */
  function RemoveAll(s: string, c: char): (r: string)
    ensures multiset(r) == multiset(s)[c := 0]
  {
    if s == [] then []
    else
      assert s == [s[0]] + s[1..];
      (if s[0] == c then [] else [s[0]]) + RemoveAll(s[1..], c)
  }

  /** `s.replace(/a/g, b)` for single characters: position by position, `a` becomes `b`. */
  function ReplaceAll(s: string, a: char, b: char): (r: string)
    ensures |r| == |s|
    ensures forall i :: 0 <= i < |s| ==> r[i] == if s[i] == a then b else s[i]
  {
    if s == [] then [] else [if s[0] == a then b else s[0]] + ReplaceAll(s[1..], a, b)
  }

  /** Position of the first occurrence of `c`. */
  function IndexOf(s: string, c: char): (k: nat)
    requires c in s
    ensures k < |s| && s[k] == c && c !in s[..k]
  {
    if s[0] == c then 0 else 1 + IndexOf(s[1..], c)
  }

  /**
   * `s.replace(c, '')` with a string pattern: the text is searched for the
   * first occurrence of `c`, and only that one is deleted.
   */
  function RemoveFirst(s: string, c: char): (r: string)
    ensures |r| == if c in s then |s| - 1 else |s|
    ensures c !in s ==> r == s
  {
    if c in s then
      var k := IndexOf(s, c);
      s[..k] + s[k + 1..]
    else s
  }

  /** Deleting the first occurrence lowers the count of `c` by one when there is one and keeps every other count. */
  lemma {:induction false} RemoveFirstCounts(s: string, c: char)
    ensures multiset(RemoveFirst(s, c)) == multiset(s) - multiset{c}
  {
    if c in s {
      var k := IndexOf(s, c);
      var pre, post := s[..k], s[k + 1..];
      assert s == pre + [c] + post;
      assert RemoveFirst(s, c) == pre + post;
      assert multiset(s) == multiset(pre) + multiset{c} + multiset(post);
    } else {
      assert multiset(s)[c] == 0;
    }
  }

  /** Deleting the first `c` from `pre + [c] + post`, where `pre` has no `c`, leaves `pre + post`. */
  lemma RemoveFirstSplit(s: string, c: char, pre: string, post: string)
    requires s == pre + [c] + post && c !in pre
    ensures RemoveFirst(s, c) == pre + post
  {
    assert s[..|pre|] == pre;
    IndexOfAt(s, c, |pre|);
    assert s[|pre| + 1..] == post;
  }

  /** A position holding `c` with no `c` before it is the first occurrence. */
  lemma {:induction false} IndexOfAt(s: string, c: char, k: nat)
    requires k < |s| && s[k] == c && c !in s[..k]
    ensures IndexOf(s, c) == k
  {
    if k > 0 {
      assert s[0] == s[..k][0];
      assert s[1..][..k - 1] == s[..k][1..];
      IndexOfAt(s[1..], c, k - 1);
    }
  }
}
