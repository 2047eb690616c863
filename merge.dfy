/**
 * `mergeLocalizations` in src/index.ts: a right-biased merge of two localizations, field by
 * field for the plurals and two levels deep (message key, then context) for the content.
 */
module Merging {
  import opened Wrappers
  import opened PluralForms
  import opened Localizations

  /** `{...a.plurals, ...b.plurals}`: a field `b` has replaces the same field of `a`. */
  function MergePlurals(a: Plurals, b: Plurals): (p: Plurals)
    ensures p.length == if b.length.Some? then b.length else a.length
    ensures p.countToIndex == if b.countToIndex.Some? then b.countToIndex else a.countToIndex
  {
    Plurals(
      if b.length.Some? then b.length else a.length,
      if b.countToIndex.Some? then b.countToIndex else a.countToIndex)
  }

  /** The forms stored under message key `k` and context `c`, if any. */
  function Lookup(content: map<string, Context>, k: string, c: string): Option<Forms> {
    if k in content && c in content[k] then Some(content[k][c]) else None
  }

  /** The contexts under `k`, none when the key is absent. */
  function Get(content: map<string, Context>, k: string): Context {
    if k in content then content[k] else map[]
  }

  /** The merged content: every key of either side; a key on both sides gets both sets of contexts. */
  function MergeContent(a: map<string, Context>, b: map<string, Context>): map<string, Context> {
    map k | k in a.Keys + b.Keys ::
      if k in a && k in b then a[k] + b[k] else if k in b then b[k] else a[k]
  }

  /** What `mergeLocalizations(a, b)` returns. */
  function Merged(a: Localization, b: Localization): Localization {
    Localization(MergePlurals(a.plurals, b.plurals), MergeContent(a.content, b.content))
  }

  /** The content once the keys in `done` have been merged in: the loop's state. */
  function PartlyMerged(a: map<string, Context>, b: map<string, Context>, done: set<string>): map<string, Context>
    requires done <= b.Keys
  {
    map k | k in a.Keys + done :: if k in done then Get(a, k) + b[k] else a[k]
  }

  /**
   * The loop of `mergeLocalizations`: start from a copy of `a`, then for each key of `b` spread
   * its contexts over the existing ones, or copy them when the key is new.
   */
  method MergeContentLoop(a: map<string, Context>, b: map<string, Context>) returns (content: map<string, Context>)
    ensures content == MergeContent(a, b)
  {
    content := a;
    var pending := b.Keys;
    ghost var done: set<string> := {};
    assert a == PartlyMerged(a, b, {});
    while pending != {}
      invariant pending <= b.Keys && done <= b.Keys
      invariant forall x :: x in b ==> (x in done <==> x !in pending)
      invariant content == PartlyMerged(a, b, done)
      decreases |pending|
    {
      var k :| k in pending;
      MergeStep(a, b, done, k);
      if k in content {
        content := content[k := content[k] + b[k]];
      } else {
        content := content[k := b[k]];
      }
      pending := pending - {k};
      done := done + {k};
    }
    MergeDone(a, b, done);
  }

  /** One turn of the loop: key `k` of `b` is spread over what is there, or copied. */
  lemma MergeStep(a: map<string, Context>, b: map<string, Context>, done: set<string>, k: string)
    requires done <= b.Keys && k in b && k !in done
    ensures var before := PartlyMerged(a, b, done);
      PartlyMerged(a, b, done + {k}) ==
        if k in before then before[k := before[k] + b[k]] else before[k := b[k]]
  {
    var before := PartlyMerged(a, b, done);
    if k !in before {
      assert Get(a, k) + b[k] == b[k];
    }
  }

  /** Once every key of `b` is done, the loop's state is the merged content. */
  lemma MergeDone(a: map<string, Context>, b: map<string, Context>, done: set<string>)
    requires done <= b.Keys && forall x :: x in b ==> x in done
    ensures PartlyMerged(a, b, done) == MergeContent(a, b)
  {
    assert done == b.Keys;
    forall k | k in MergeContent(a, b)
      ensures PartlyMerged(a, b, done)[k] == MergeContent(a, b)[k]
    {
      MergeContentGet(a, b, k);
      if k !in b {
        assert a[k] + Get(b, k) == a[k];
      }
    }
  }

  /** `mergeLocalizations`: the plurals spread, then the content loop. */
  method MergeLocalizations(a: Localization, b: Localization) returns (r: Localization)
    ensures r == Merged(a, b)
  {
    var content := MergeContentLoop(a.content, b.content);
    r := Localization(MergePlurals(a.plurals, b.plurals), content);
  }

  // ---------------------------------------------------------------------------------------------
  // Properties

  /** Each key of the merge holds the contexts of both sides, `b`'s winning. */
  lemma MergeContentGet(a: map<string, Context>, b: map<string, Context>, k: string)
    ensures k in MergeContent(a, b) <==> k in a || k in b
    ensures k in MergeContent(a, b) ==> MergeContent(a, b)[k] == Get(a, k) + Get(b, k)
  {
    if k in a && k !in b {
      assert a[k] + map[] == a[k];
    }
    if k !in a && k in b {
      assert map[] + b[k] == b[k];
    }
  }

  /**
   * Looking up a message in a context of the merge finds what `b` has there, and otherwise what
   * `a` has: keys only in `a` are kept, keys only in `b` are copied, and on a shared key the
   * contexts are united with `b` winning.
   */
  lemma MergedLookup(a: Localization, b: Localization, k: string, c: string)
    ensures Lookup(Merged(a, b).content, k, c) ==
      if Lookup(b.content, k, c).Some? then Lookup(b.content, k, c) else Lookup(a.content, k, c)
  {
  }

  /** The merge never removes a message key or a context. */
  lemma MergedKeys(a: Localization, b: Localization)
    ensures Merged(a, b).content.Keys == a.content.Keys + b.content.Keys
    ensures forall k :: k in Merged(a, b).content ==>
      Merged(a, b).content[k].Keys ==
        (if k in a.content then a.content[k].Keys else {}) + (if k in b.content then b.content[k].Keys else {})
  {
  }

  /** Merging in an empty localization changes nothing. */
  lemma MergeEmpty(a: Localization)
    ensures Merged(a, Localization(Plurals(None, None), map[])) == a
  {
    var m := MergeContent(a.content, map[]);
    assert m == a.content;
  }

  /** Merging a localization into itself changes nothing. */
  lemma MergeIdempotent(a: Localization)
    ensures Merged(a, a) == a
  {
    var m := MergeContent(a.content, a.content);
    forall k | k in m
      ensures m[k] == a.content[k]
    {
      assert a.content[k] + a.content[k] == a.content[k];
    }
    assert m == a.content;
  }

  /** Merging is associative, so merging in two batches is merging in their merge. */
  lemma MergeAssociative(a: Localization, b: Localization, c: Localization)
    ensures Merged(Merged(a, b), c) == Merged(a, Merged(b, c))
  {
    MergeContentAssociative(a.content, b.content, c.content);
  }

  lemma MergeContentAssociative(a: map<string, Context>, b: map<string, Context>, c: map<string, Context>)
    ensures MergeContent(MergeContent(a, b), c) == MergeContent(a, MergeContent(b, c))
  {
    var ab := MergeContent(a, b);
    var bc := MergeContent(b, c);
    var left := MergeContent(ab, c);
    var right := MergeContent(a, bc);
    forall k | k in left
      ensures k in right && left[k] == right[k]
    {
      GetAssociative(a, b, c, k);
    }
    forall k | k in right
      ensures k in left
    {
      MergeContentGet(a, bc, k);
      MergeContentGet(b, c, k);
      MergeContentGet(ab, c, k);
      MergeContentGet(a, b, k);
    }
    assert left == right;
  }

  lemma GetAssociative(a: map<string, Context>, b: map<string, Context>, c: map<string, Context>, k: string)
    requires k in MergeContent(MergeContent(a, b), c)
    ensures k in MergeContent(a, MergeContent(b, c))
    ensures MergeContent(MergeContent(a, b), c)[k] == MergeContent(a, MergeContent(b, c))[k]
  {
    var ab := MergeContent(a, b);
    var bc := MergeContent(b, c);
    GetMerge(ab, c, k);
    GetMerge(a, bc, k);
    GetMerge(a, b, k);
    GetMerge(b, c, k);
    MergeContentGet(ab, c, k);
    MergeContentGet(a, bc, k);
    UnionAssociative(Get(a, k), Get(b, k), Get(c, k));
  }

  lemma GetMerge(a: map<string, Context>, b: map<string, Context>, k: string)
    ensures Get(MergeContent(a, b), k) == Get(a, k) + Get(b, k)
  {
    MergeContentGet(a, b, k);
    if k !in a && k !in b {
      var e: Context := map[];
      assert e + e == e;
    }
  }

  lemma UnionAssociative(x: Context, y: Context, z: Context)
    ensures x + y + z == x + (y + z)
  {
  }

  /** On disjoint message keys the order of the two sides does not matter for the content. */
  lemma MergeDisjointCommutes(a: Localization, b: Localization)
    requires a.content.Keys !! b.content.Keys
    ensures Merged(a, b).content == Merged(b, a).content
  {
  }
}
