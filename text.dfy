/** Substring facts about plain strings, used to state when a field key can or
    cannot occur in a message. */
module Text {

  /** `w` occurs in `s` at some position. */
  predicate OccursIn(w: string, s: string)
  {
    exists p :: 0 <= p <= |s| && w <= s[p..]
  }

  /** `w` is a suffix of `s`. */
  predicate IsSuffix(w: string, s: string)
  {
    |w| <= |s| && s[|s| - |w|..] == w
  }

  /** A text without the character `x` holds no word that ends in `x`. */
  lemma AbsentCharNoOccurrence(f: string, x: char, s: string)
    requires x !in s
    ensures !OccursIn(f + [x], s)
  {
    forall p | 0 <= p <= |s| ensures !(f + [x] <= s[p..]) {
      if p + |f| < |s| {
        assert s[p + |f|] in s;
      }
    }
  }

  /** A word whose first character does not appear in `s` does not occur in `s`. */
  lemma AbsentHeadNoOccurrence(w: string, s: string)
    requires |w| >= 1 && w[0] !in s
    ensures !OccursIn(w, s)
  {
    forall p | 0 <= p <= |s| ensures !(w <= s[p..]) {
      if p < |s| {
        assert s[p..][0] == s[p] && s[p] in s;
      }
    }
  }

  /** Appending a character that cannot end `w` creates no occurrence of `w`. */
  lemma NoOccurrenceExtends(w: string, s: string, x: char)
    requires |w| >= 1 && w[|w| - 1] != x && !OccursIn(w, s)
    ensures !OccursIn(w, s + [x])
  {
    var t := s + [x];
    forall p | 0 <= p <= |t| ensures !(w <= t[p..]) {
      if p + |w| <= |s| {
        assert t[p..][..|w|] == s[p..][..|w|];
      } else if p <= |s| {
        assert p + |w| == |t| ==> t[p..][|w| - 1] == x;
      }
    }
  }

  /** Where `key=value` is built from a key without `=`, a word `f=` with no `=`
      in `f` can only start inside the value, or end exactly at the key's end
      (so `f` is a suffix of the key). */
  lemma {:induction false} KeyValueOccurrence(f: string, key: string, value: string)
    requires '=' !in f && '=' !in key
    requires !IsSuffix(f, key) && !OccursIn(f + "=", value)
    ensures !OccursIn(f + "=", key + "=" + value)
  {
    var s := key + "=" + value;
    forall p | 0 <= p <= |s| ensures !(f + "=" <= s[p..]) {
      if p + |f| < |key| {
        assert s[p + |f|] == key[p + |f|] != '=';
      } else if p <= |key| < p + |f| {
        assert f[|key| - p] in f && s[p..][|key| - p] == '=';
      } else if p <= |key| {
        assert s[p..p + |f|] == key[|key| - |f|..] != f;
      } else {
        assert s[p..] == value[p - |key| - 1..];
      }
    }
  }

  /** A prefix of `t[j..]` is the slice of `t` it covers. */
  lemma PrefixIsSlice(w: string, t: string, j: nat)
    requires j <= |t| && w <= t[j..]
    ensures j + |w| <= |t| && t[j..j + |w|] == w
  {
    assert t[j..][..|w|] == w;
  }

  /** A prefix of `t` is the first characters of `t`. */
  lemma PrefixIsTake(w: string, t: string)
    requires w <= t
    ensures t[..|w|] == w
  {
  }

  /** `t` cut at three positions. */
  lemma Cut3(t: string, i: nat, j: nat, e: nat)
    requires i <= j <= e <= |t|
    ensures t[i..] == t[i..j] + t[j..e] + t[e..]
    ensures t == t[..i] + t[i..j] + t[j..e] + t[e..]
  {
    assert t[i..] == t[i..j] + t[j..];
    assert t[j..] == t[j..e] + t[e..];
    assert t == t[..i] + t[i..];
  }

  /** Where `sep` occurs `k` characters after position `i`, `t` is the text
      before `i`, the `k` characters, `sep` and the rest. */
  lemma SplitAt(t: string, i: nat, k: nat, sep: string)
    requires i + k <= |t| && sep <= t[i..][k..]
    ensures i + k + |sep| <= |t|
    ensures t[i..] == t[i..i + k] + sep + t[i + k + |sep|..]
    ensures t == t[..i] + t[i..i + k] + sep + t[i + k + |sep|..]
  {
    var j, e := i + k, i + k + |sep|;
    assert t[i..][k..] == t[j..];
    PrefixIsSlice(sep, t, j);
    Cut3(t, i, j, e);
  }
}
