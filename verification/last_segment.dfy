/** The "last segment only" rewrite applied to manual slug edits: the
    generated slug keeps everything up to its last path separator, and the
    user's sanitized input, with its leading character dropped and every
    separator flattened to a dash, becomes the final segment. */
module LastSegment {
  import opened Php

  /** The path separator of a slug. */
  const Sep: char := '/'

  /** What an embedded separator in the manual input is flattened to. */
  const Flattened: char := '-'

  /** Position of the last `c` in `s`. */
  function LastIndex(c: char, s: string): (i: nat)
    requires c in s
    ensures i < |s| && s[i] == c
    ensures forall k :: i < k < |s| ==> s[k] != c
    decreases |s|
  {
    if s[|s| - 1] == c then |s| - 1
    else
      assert c in s[..|s| - 1] by {
        var j :| 0 <= j < |s| && s[j] == c;
        assert s[..|s| - 1][j] == c;
      }
      LastIndex(c, s[..|s| - 1])
  }

  /** The text of `s` up to and including its last separator (empty when
      `s` has none): the part of a slug above its final segment. */
  function Head(s: string): string {
    if Sep in s then s[..LastIndex(Sep, s) + 1] else ""
  }

  /** The text of `s` after its last separator (all of `s` when it has none):
      the final segment of a slug. */
  function Last(s: string): string {
    if Sep in s then s[LastIndex(Sep, s) + 1..] else s
  }

  /** `Head` and `Last` cut a slug in two, and the final segment holds no
      separator. */
  lemma HeadLastSplit(s: string)
    ensures Head(s) + Last(s) == s
    ensures Sep !in Last(s)
    ensures Head(s) == "" || Head(s)[|Head(s)| - 1] == Sep
  {
    if Sep in s {
      var k := LastIndex(Sep, s);
      assert s[..k + 1] + s[k + 1..] == s;
      AfterLastIsSeparatorFree(s);
    }
  }

  /** The final segment the splice writes: the sanitized input without its
      first character (the leading separator a sanitized slug starts with),
      with separators flattened. */
  function FlattenedTail(sanitized: string): string {
    StrReplace(Sep, Flattened, Substr(sanitized, 1))
  }

  /** Lines 93-95: explode the generated slug, pop its final segment,
      implode the rest and append a separator and the flattened manual
      input. */
  function Splice(generated: string, sanitized: string): (proposal: string)
    ensures var tail := FlattenedTail(sanitized);
      |tail| < |proposal| && proposal[|proposal| - |tail| - 1..] == [Sep] + tail
  {
    var segments := Explode(Sep, generated);
    var kept := segments[..|segments| - 1];
    Implode(Sep, kept) + [Sep] + FlattenedTail(sanitized)
  }

  /** The splice is the generated slug's dirname, a separator and the
      flattened manual input. */
  lemma SpliceIsDirnameJoin(generated: string, sanitized: string)
    ensures Splice(generated, sanitized) == Dirname(generated) + [Sep] + FlattenedTail(sanitized)
  {
    KeptPrefix(generated);
  }

  /** The proposal's text up to its last separator is the generated slug's
      (a lone separator when the generated slug has none); its final segment
      is the flattened manual input; it holds as many separators as the
      generated slug, and at least one. */
  lemma SpliceKeepsHead(generated: string, sanitized: string)
    ensures Head(Splice(generated, sanitized)) == (if Sep in generated then Head(generated) else [Sep])
    ensures Last(Splice(generated, sanitized)) == FlattenedTail(sanitized)
    ensures Count(Sep, Splice(generated, sanitized)) == (if Count(Sep, generated) == 0 then 1 else Count(Sep, generated))
  {
    SpliceIsDirnameJoin(generated, sanitized);
    SpliceShape(generated, FlattenedTail(sanitized));
  }

  /** The text after the last separator holds no separator. */
  lemma AfterLastIsSeparatorFree(s: string)
    requires Sep in s
    ensures Sep !in s[LastIndex(Sep, s) + 1..]
  {
    var k := LastIndex(Sep, s);
    var after := s[k + 1..];
    forall j | 0 <= j < |after| ensures after[j] != Sep {
      assert after[j] == s[k + 1 + j];
    }
  }

  /** Cutting `s` around position `k` and gluing the pieces back gives `s`. */
  lemma SplitAround(s: string, k: nat)
    requires k < |s|
    ensures s[..k] + [s[k]] + s[k + 1..] == s
  {
  }

  /** Exploding a slug that holds a separator yields the pieces of its text
      before the last separator, then its final segment. */
  lemma ExplodeAtLast(s: string)
    requires Sep in s
    ensures Explode(Sep, s) == Explode(Sep, s[..LastIndex(Sep, s)]) + [s[LastIndex(Sep, s) + 1..]]
  {
    var k := LastIndex(Sep, s);
    var front := Explode(Sep, s[..k]);
    var last := s[k + 1..];
    AfterLastIsSeparatorFree(s);
    var parts := front + [last];
    ImplodeSnoc(Sep, front, last);
    SplitAround(s, k);
    assert SeparatorFree(Sep, parts) by {
      forall j | 0 <= j < |parts| ensures Sep !in parts[j] {
        if j < |front| { assert parts[j] == front[j]; }
      }
    }
    ExplodeUnique(Sep, parts, s);
  }

  /** Imploding every segment but the last gives back the generated slug
      up to, and not including, its last separator. */
  lemma KeptPrefix(generated: string)
    ensures var segments := Explode(Sep, generated);
      Implode(Sep, segments[..|segments| - 1]) == Dirname(generated)
  {
    var segments := Explode(Sep, generated);
    if Sep in generated {
      var k := LastIndex(Sep, generated);
      ExplodeAtLast(generated);
      assert segments[..|segments| - 1] == Explode(Sep, generated[..k]);
    } else {
      assert segments == [generated];
    }
  }

  /** The text of a slug before its last separator (empty when it has
      none): what remains of it once its final segment is popped. */
  function Dirname(s: string): string {
    if Sep in s then s[..LastIndex(Sep, s)] else ""
  }

  /** A separator followed by separator-free text is the last separator:
      the text before it is the head, the text after it the final segment. */
  lemma JoinShape(prefix: string, tail: string)
    requires Sep !in tail
    ensures Head(prefix + [Sep] + tail) == prefix + [Sep]
    ensures Last(prefix + [Sep] + tail) == tail
    ensures Count(Sep, prefix + [Sep] + tail) == Count(Sep, prefix) + 1
  {
    var s := prefix + [Sep] + tail;
    assert s[|prefix|] == Sep;
    assert LastIndex(Sep, s) == |prefix|;
    assert s[..|prefix| + 1] == prefix + [Sep];
    assert s[|prefix| + 1..] == tail;
    assert multiset(tail)[Sep] == 0;
  }

  /** The head of a slug is its dirname plus a separator (a lone separator
      when it has none), and the dirname holds every separator of the slug
      but the last. */
  lemma DirnameShape(s: string)
    ensures Dirname(s) + [Sep] == (if Sep in s then Head(s) else [Sep])
    ensures Count(Sep, Dirname(s)) + 1 == (if Sep in s then Count(Sep, s) else 1)
    ensures Sep !in s ==> Count(Sep, s) == 0
  {
    if Sep in s {
      var k := LastIndex(Sep, s);
      AfterLastIsSeparatorFree(s);
      SplitAround(s, k);
      assert multiset(s) == multiset(s[..k]) + multiset([Sep]) + multiset(s[k + 1..]);
      assert multiset(s[k + 1..])[Sep] == 0;
    } else {
      assert multiset(s)[Sep] == 0;
    }
  }

  /** Appending a separator and separator-free text to the dirname of a
      slug keeps its head (a lone separator when it has none) and, but for a
      slug without separator, its number of separators. */
  lemma SpliceShape(generated: string, tail: string)
    requires Sep !in tail
    ensures Head(Dirname(generated) + [Sep] + tail) == (if Sep in generated then Head(generated) else [Sep])
    ensures Last(Dirname(generated) + [Sep] + tail) == tail
    ensures Count(Sep, Dirname(generated) + [Sep] + tail)
         == (if Count(Sep, generated) == 0 then 1 else Count(Sep, generated))
  {
    JoinShape(Dirname(generated), tail);
    DirnameShape(generated);
  }

  /** Joining all but the last of some separator-free segments, a
      separator and separator-free text explodes into those segments and the
      text (an empty first segment when only one segment was given). */
  lemma ExplodeReplacingLast(segments: seq<string>, tail: string)
    requires |segments| >= 1 && SeparatorFree(Sep, segments)
    requires Sep !in tail
    ensures Explode(Sep, Implode(Sep, segments[..|segments| - 1]) + [Sep] + tail)
         == (if |segments| == 1 then [""] else segments[..|segments| - 1]) + [tail]
  {
    var kept := if |segments| == 1 then [""] else segments[..|segments| - 1];
    assert Implode(Sep, kept) == Implode(Sep, segments[..|segments| - 1]);
    ImplodeSnoc(Sep, kept, tail);
    var parts := kept + [tail];
    assert SeparatorFree(Sep, parts) by {
      forall j | 0 <= j < |parts| ensures Sep !in parts[j] {
        if j < |kept| && |segments| > 1 { assert parts[j] == segments[j]; }
      }
    }
    ExplodeUnique(Sep, parts, Implode(Sep, segments[..|segments| - 1]) + [Sep] + tail);
  }

  /** At segment level: the proposal's segments are the generated slug's
      segments with the last one replaced by the flattened manual input;
      a generated slug without separator contributes one empty segment. */
  lemma SpliceReplacesLastSegment(generated: string, sanitized: string)
    ensures var segments := Explode(Sep, generated);
      var tail := FlattenedTail(sanitized);
      Explode(Sep, Splice(generated, sanitized))
        == (if |segments| == 1 then [""] else segments[..|segments| - 1]) + [tail]
  {
    var segments := Explode(Sep, generated);
    SpliceUnfolds(generated, sanitized);
    ExplodeReplacingLast(segments, FlattenedTail(sanitized));
  }

  /** The splice, written out over the exploded slug. */
  lemma SpliceUnfolds(generated: string, sanitized: string)
    ensures var segments := Explode(Sep, generated);
      Splice(generated, sanitized)
      == Implode(Sep, segments[..|segments| - 1]) + [Sep] + FlattenedTail(sanitized)
  {
  }

  /** A slug that starts with a separator, or has none, yields a proposal
      that starts with a separator. */
  lemma SpliceLeadingSeparator(generated: string, sanitized: string)
    requires Sep !in generated || generated[0] == Sep
    ensures |Splice(generated, sanitized)| > 0 && Splice(generated, sanitized)[0] == Sep
  {
    SpliceIsDirnameJoin(generated, sanitized);
    if Sep in generated && LastIndex(Sep, generated) > 0 {
      assert Dirname(generated)[0] == generated[0];
    }
  }

  /** No separator directly follows another. */
  predicate NoDoubledSeparator(s: string) {
    forall i :: 0 < i < |s| ==> s[i - 1] != Sep || s[i] != Sep
  }

  /** A prefix of a slug without doubled separators has none either. */
  lemma PrefixKeepsSeparatorsSingle(s: string, n: nat)
    requires n <= |s| && NoDoubledSeparator(s)
    ensures NoDoubledSeparator(s[..n])
  {
    forall i | 0 < i < n ensures s[..n][i - 1] != Sep || s[..n][i] != Sep {
      assert s[..n][i - 1] == s[i - 1] && s[..n][i] == s[i];
    }
  }

  /** Text ending in a separator, followed by separator-free text, has no
      doubled separator when the first part has none. */
  lemma JoinKeepsSeparatorsSingle(head: string, tail: string)
    requires NoDoubledSeparator(head) && Sep !in tail
    ensures NoDoubledSeparator(head + tail)
  {
    var s := head + tail;
    forall i | 0 < i < |s| ensures s[i - 1] != Sep || s[i] != Sep {
      if i < |head| {
        assert s[i - 1] == head[i - 1] && s[i] == head[i];
      } else {
        assert s[i] == tail[i - |head|];
      }
    }
  }

  /** The splice never creates a doubled separator: one in the proposal must
      already be in the generated slug. */
  lemma SpliceKeepsSeparatorsSingle(generated: string, sanitized: string)
    requires NoDoubledSeparator(generated)
    ensures NoDoubledSeparator(Splice(generated, sanitized))
  {
    var proposal := Splice(generated, sanitized);
    SpliceKeepsHead(generated, sanitized);
    HeadLastSplit(proposal);
    if Sep in generated {
      HeadLastSplit(generated);
      assert Head(generated) == generated[..|Head(generated)|];
      PrefixKeepsSeparatorsSingle(generated, |Head(generated)|);
    }
    JoinKeepsSeparatorsSingle(Head(proposal), Last(proposal));
  }

  /** A sanitized input of at most one character leaves the final segment
      empty: the proposal then ends in a separator. */
  lemma SpliceShortInputEmptiesLastSegment(generated: string, sanitized: string)
    requires |sanitized| <= 1
    ensures Last(Splice(generated, sanitized)) == ""
    ensures var p := Splice(generated, sanitized); |p| > 0 && p[|p| - 1] == Sep
  {
    SpliceKeepsHead(generated, sanitized);
    HeadLastSplit(Splice(generated, sanitized));
  }
}
