/*
 * The few operations of Go's `strings` package that the Google Secret
 * Manager provider uses, on strings seen as sequences of characters (one
 * character per byte of the Go string).
 */
module GoStrings {

  /** strings.HasPrefix: `prefix` is an initial segment of `s`. */
  predicate HasPrefix(s: string, prefix: string) {
    |prefix| <= |s| && s[..|prefix|] == prefix
  }

  /** `s` starts with `prefix` exactly when it is `prefix` followed by some text. */
  lemma HasPrefixIff(s: string, prefix: string)
    ensures HasPrefix(s, prefix) <==> exists rest :: s == prefix + rest
  {
    if HasPrefix(s, prefix) {
      assert s == prefix + s[|prefix|..];
    }
    forall rest | s == prefix + rest ensures HasPrefix(s, prefix) {
      assert s[..|prefix|] == prefix;
    }
  }

  /** strings.TrimPrefix: drops `prefix` when `s` starts with it, else returns `s`. */
  function TrimPrefix(s: string, prefix: string): (r: string)
    ensures HasPrefix(s, prefix) ==> prefix + r == s
    ensures !HasPrefix(s, prefix) ==> r == s
  {
    if HasPrefix(s, prefix) then s[|prefix|..] else s
  }

  /** `sub` occurs in `s` starting at index `k`. */
  ghost predicate OccursAt(s: string, sub: string, k: int) {
    0 <= k && k + |sub| <= |s| && s[k..k + |sub|] == sub
  }

  /**
   * strings.Contains, as a left-to-right scan. The empty text is in every
   * string, a text longer than `s` never is, and a prefix of `s` always is;
   * ContainsIff gives its exact meaning.
   */
  function Contains(s: string, sub: string): (b: bool)
    ensures sub == [] ==> b
    ensures b ==> |sub| <= |s|
    decreases |s|
  {
    |sub| <= |s| && (s[..|sub|] == sub || Contains(s[1..], sub))
  }

  /** The scan finds `sub` exactly when `sub` occurs somewhere in `s`. */
  lemma {:induction false} ContainsIff(s: string, sub: string)
    ensures Contains(s, sub) <==> exists k :: OccursAt(s, sub, k)
    decreases |s|
  {
    if |sub| <= |s| {
      if s[..|sub|] == sub {
        assert OccursAt(s, sub, 0);
      } else {
        ContainsIff(s[1..], sub);
        if Contains(s[1..], sub) {
          var k :| OccursAt(s[1..], sub, k);
          assert s[k + 1..k + 1 + |sub|] == s[1..][k..k + |sub|];
          assert OccursAt(s, sub, k + 1);
        } else {
          forall k | 0 < k && OccursAt(s, sub, k) ensures OccursAt(s[1..], sub, k - 1) {
            assert s[1..][k - 1..k - 1 + |sub|] == s[k..k + |sub|];
          }
        }
      }
    }
  }

  /** A string lacking some character of `sub` cannot contain `sub`. */
  lemma NotContainsMissingChar(s: string, sub: string, c: char)
    requires c in sub && c !in s
    ensures !Contains(s, sub)
  {
    ContainsIff(s, sub);
    var m :| 0 <= m < |sub| && sub[m] == c;
    forall k | 0 <= k ensures !OccursAt(s, sub, k) {
      if k + |sub| <= |s| {
        assert s[k..k + |sub|][m] == s[k + m] != c;
      }
    }
  }

  /** An occurrence inside `t` is still an occurrence once text is put before and after `t`. */
  lemma ContainsInContext(pre: string, t: string, post: string, sub: string)
    requires Contains(t, sub)
    ensures Contains(pre + t + post, sub)
  {
    ContainsIff(t, sub);
    var k :| OccursAt(t, sub, k);
    var s := pre + t + post;
    assert s[|pre| + k..|pre| + k + |sub|] == t[k..k + |sub|];
    assert OccursAt(s, sub, |pre| + k);
    ContainsIff(s, sub);
  }

  /** strings.IndexByte, returning |s| instead of -1 when `c` is absent. */
  function IndexOf(s: string, c: char): (i: nat)
    ensures i <= |s|
    ensures i < |s| ==> s[i] == c
    ensures forall j :: 0 <= j < i ==> s[j] != c
    ensures i == |s| <==> c !in s
  {
    if s == [] then 0
    else if s[0] == c then 0
    else 1 + IndexOf(s[1..], c)
  }

  /** In `a + b`, where `a` lacks `c` and `b` is empty or starts with `c`, the first `c` is at |a|. */
  lemma IndexOfAfter(a: string, b: string, c: char)
    requires c !in a && (b == [] || b[0] == c)
    ensures IndexOf(a + b, c) == |a|
  {
    var s := a + b;
    if b != [] {
      assert s[|a|] == c;
    }
  }

  /**
   * strings.Split with a one-character separator: the maximal runs of `s`
   * between separators, so never fewer than one field.
   */
  function Split(s: string, sep: char): (fields: seq<string>)
    ensures |fields| >= 1
    ensures sep in s ==> |fields| >= 2
    ensures fields[0] == s[..IndexOf(s, sep)]
    decreases |s|
  {
    var i := IndexOf(s, sep);
    if i == |s| then [s] else [s[..i]] + Split(s[i + 1..], sep)
  }

  /** The text before the first `c` holds no `c`. */
  lemma NoSeparatorBeforeIndex(s: string, c: char)
    ensures c !in s[..IndexOf(s, c)]
  {
    var i := IndexOf(s, c);
    assert forall j :: 0 <= j < i ==> s[..i][j] == s[j];
  }

  /** A string holding `c` is the text before its first `c`, that `c`, and the text after. */
  lemma CutAtIndex(s: string, c: char)
    requires c in s
    ensures s == s[..IndexOf(s, c)] + [c] + s[IndexOf(s, c) + 1..]
  {
    var i := IndexOf(s, c);
    assert s[i] == c;
  }

  /** One step of the split: the first field, then the split of what follows the first separator. */
  lemma SplitStep(s: string, sep: char)
    requires sep in s
    ensures Split(s, sep) == [s[..IndexOf(s, sep)]] + Split(s[IndexOf(s, sep) + 1..], sep)
  {
  }

  /** No field of a split holds the separator. */
  lemma {:induction false} SplitFieldsLackSeparator(s: string, sep: char)
    ensures forall k :: 0 <= k < |Split(s, sep)| ==> sep !in Split(s, sep)[k]
    decreases |s|
  {
    NoSeparatorBeforeIndex(s, sep);
    if sep in s {
      var rest := s[IndexOf(s, sep) + 1..];
      SplitStep(s, sep);
      SplitFieldsLackSeparator(rest, sep);
      var fields, tail := Split(s, sep), Split(rest, sep);
      forall k | 0 < k < |fields| ensures sep !in fields[k] {
        assert fields[k] == tail[k - 1];
      }
    }
  }

  /** strings.Join with a one-character separator. */
  function Join(fields: seq<string>, sep: char): string
    requires |fields| >= 1
  {
    if |fields| == 1 then fields[0] else fields[0] + [sep] + Join(fields[1..], sep)
  }

  /** Splitting loses nothing: joining the fields gives the string back. */
  lemma {:induction false} JoinSplit(s: string, sep: char)
    ensures Join(Split(s, sep), sep) == s
    decreases |s|
  {
    var i := IndexOf(s, sep);
    if i < |s| {
      var rest := s[i + 1..];
      var tail := Split(rest, sep);
      assert Split(s, sep) == [s[..i]] + tail;
      JoinSplit(rest, sep);
      JoinCons(s[..i], tail, sep);
      assert s == s[..i] + [sep] + rest;
    } else {
      assert Split(s, sep) == [s];
    }
  }

  /** Joining a field in front of at least one more. */
  lemma JoinCons(head: string, tail: seq<string>, sep: char)
    requires |tail| >= 1
    ensures Join([head] + tail, sep) == head + [sep] + Join(tail, sep)
  {
    assert ([head] + tail)[1..] == tail;
  }

  /** Fields free of the separator are recovered exactly by splitting their join. */
  lemma {:induction false} SplitJoin(fields: seq<string>, sep: char)
    requires |fields| >= 1
    requires forall f :: f in fields ==> sep !in f
    ensures Split(Join(fields, sep), sep) == fields
    decreases |fields|
  {
    var s := Join(fields, sep);
    if |fields| == 1 {
      assert IndexOf(s, sep) == |s|;
    } else {
      var rest := Join(fields[1..], sep);
      assert s == fields[0] + [sep] + rest;
      assert fields[0] in fields;
      assert s[..|fields[0]|] == fields[0];
      assert s[|fields[0]|] == sep;
      assert IndexOf(s, sep) == |fields[0]|;
      assert s[|fields[0]| + 1..] == rest;
      assert forall f :: f in fields[1..] ==> f in fields;
      SplitJoin(fields[1..], sep);
    }
  }

  /**
   * The second field of a string holding the separator is the text between
   * its first and second separators (or its end).
   */
  lemma SecondField(s: string, sep: char)
    requires sep in s
    ensures |Split(s, sep)| >= 2
    ensures var rest := s[IndexOf(s, sep) + 1..];
            Split(s, sep)[1] == rest[..IndexOf(rest, sep)]
  {
  }
}
