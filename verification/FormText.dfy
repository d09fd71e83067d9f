/** Searching in buffers. A byte is a `char`; nothing but equality of bytes matters here. */
module FormText {
  /** `needle` stands in `hay` at `k`. */
  predicate Occurs(hay: string, needle: string, k: nat) {
    k + |needle| <= |hay| && hay[k..k + |needle|] == needle
  }

  function FindFrom(hay: string, needle: string, lo: nat): (k: int)
    requires lo <= |hay|
    ensures k == -1 || (lo <= k && Occurs(hay, needle, k))
    ensures forall j: nat :: lo <= j && Occurs(hay, needle, j) ==> 0 <= k <= j
    decreases |hay| - lo
  {
    if Occurs(hay, needle, lo) then lo
    else if lo == |hay| then -1
    else FindFrom(hay, needle, lo + 1)
  }

  /** `memmem`: the first place of `needle`, or -1. */
  function Find(hay: string, needle: string): (k: int)
    ensures k == -1 || (0 <= k && Occurs(hay, needle, k))
    ensures k + |needle| <= |hay| || k == -1
    ensures forall j: nat :: Occurs(hay, needle, j) ==> 0 <= k <= j
  {
    FindFrom(hay, needle, 0)
  }

  lemma FindIs(hay: string, needle: string, k: nat)
    requires Occurs(hay, needle, k) && forall j: nat :: j < k ==> !Occurs(hay, needle, j)
    ensures Find(hay, needle) == k
  {
  }

  lemma Differs(hay: string, needle: string, k: nat, i: nat)
    requires i < |needle| && k + i < |hay| && hay[k + i] != needle[i]
    ensures !Occurs(hay, needle, k)
  {
  }

  predicate StartsWith(s: string, p: string) {
    |p| <= |s| && s[..|p|] == p
  }

  /** The first place of a character at or after `lo`, or -1. */
  function FindChar(s: string, c: char, lo: nat): (k: int)
    ensures k == -1 || (lo <= k < |s| && s[k] == c)
    ensures forall j: nat :: lo <= j < |s| && s[j] == c ==> 0 <= k <= j
    decreases |s| - lo
  {
    if lo >= |s| then -1 else if s[lo] == c then lo else FindChar(s, c, lo + 1)
  }

  /** Text that is followed by `d` for the first time at its own end. */
  predicate FirstAtEnd(text: string, d: string) {
    Find(text + d, d) == |text|
  }

  /** Whether `d` first stands behind `text` does not depend on what follows. */
  lemma FirstWithTail(text: string, d: string, tail: string)
    requires d != ""
    ensures FirstAtEnd(text, d) <==> Find(text + d + tail, d) == |text|
  {
    var s, t := text + d, text + d + tail;
    assert Occurs(s, d, |text|) && Occurs(t, d, |text|);
    forall j: nat | j <= |text| ensures Occurs(s, d, j) <==> Occurs(t, d, j) {
      assert t[j..j + |d|] == s[j..j + |d|];
    }
  }

  /** Dropping the beginning of such a text leaves one. */
  lemma FirstInRest(text: string, d: string, c: nat)
    requires FirstAtEnd(text, d) && c <= |text|
    ensures FirstAtEnd(text[c..], d)
  {
    var s, t := text + d, text[c..] + d;
    assert Occurs(t, d, |text| - c);
    forall j: nat | j < |text| - c ensures !Occurs(t, d, j) {
      assert t[j..j + |d|] == s[j + c..j + c + |d|];
      assert !Occurs(s, d, j + c);
    }
  }

  /** The beginning of such a text holds no `d`. */
  lemma NoneInStart(text: string, d: string, c: nat)
    requires FirstAtEnd(text, d) && c <= |text| && d != ""
    ensures Find(text[..c], d) == -1
  {
    forall j: nat ensures !Occurs(text[..c], d, j) {
      if j + |d| <= c {
        assert (text + d)[j..j + |d|] == text[..c][j..j + |d|];
        assert !Occurs(text + d, d, j);
      }
    }
  }

  /** Before its end such a text with `d` behind it holds none. */
  lemma NoneBefore(text: string, d: string, m: nat)
    requires FirstAtEnd(text, d) && m < |text + d|
    ensures Find((text + d)[..m], d) == -1
  {
    var s := text + d;
    forall j: nat ensures !Occurs(s[..m], d, j) {
      if j + |d| <= m {
        SliceOfStart(s, m, j, j + |d|);
        assert !Occurs(s, d, j);
      }
    }
  }

  lemma SliceOfStart(s: string, m: nat, i: nat, j: nat)
    requires i <= j <= m <= |s|
    ensures s[..m][i..j] == s[i..j]
  {
  }
}
