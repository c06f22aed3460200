// mergeMap on mutable objects.  A ghost tree mirrors the objects with their
// identities; subtrees of the source end up shared by the destination.
module JsonHeap {
  import opened JsonMerge

  datatype Value = ScalarValue(s: Scalar) | Ref(obj: JsonMap)

  class JsonMap {
    var fields: map<string, Value>
  }

  // The shape of a document in the heap, with the object of every node.
  datatype HTree = HLeaf(value: Scalar) | HNode(obj: JsonMap, kids: map<string, HTree>)

  ghost function Objs(t: HTree): set<JsonMap> {
    match t
    case HLeaf(_) => {}
    case HNode(obj, kids) => {obj} + set k, o | k in kids && o in Objs(kids[k]) :: o
  }

  ghost function Entry(t: HTree): Value {
    match t
    case HLeaf(v) => ScalarValue(v)
    case HNode(obj, _) => Ref(obj)
  }

  // The heap holds the document t.
  ghost predicate Holds(t: HTree)
    reads Objs(t)
  {
    t.HNode? ==>
      t.obj.fields.Keys == t.kids.Keys &&
      forall k :: k in t.kids ==> t.obj.fields[k] == Entry(t.kids[k]) && Holds(t.kids[k])
  }

  // No object occurs at two places.
  ghost predicate TreeShaped(t: HTree) {
    t.HNode? ==>
      (forall k :: k in t.kids ==> t.obj !in Objs(t.kids[k]) && TreeShaped(t.kids[k])) &&
      forall k, l :: k in t.kids && l in t.kids && k != l ==> Objs(t.kids[k]) !! Objs(t.kids[l])
  }

  // The document without identities.
  ghost function Erase(t: HTree): Json {
    match t
    case HLeaf(v) => Leaf(v)
    case HNode(_, kids) => Object(map k | k in kids :: Erase(kids[k]))
  }

  // The tree that merging leaves behind: objects of the destination where it
  // had any, objects of the source elsewhere.
  ghost function MergeTree(dst: HTree, src: HTree): HTree
    decreases src
  {
    if dst.HNode? && src.HNode? then
      HNode(dst.obj, map k | k in dst.kids.Keys + src.kids.Keys :: MergedKid(dst, src, k))
    else src
  }

  ghost function MergedKid(dst: HTree, src: HTree, k: string): HTree
    requires dst.HNode? && src.HNode? && k in dst.kids.Keys + src.kids.Keys
    decreases src, 0
  {
    if k !in src.kids then dst.kids[k]
    else if k !in dst.kids then src.kids[k]
    else MergeTree(dst.kids[k], src.kids[k])
  }

  // dst and src share an object only where they are the same subtree at the
  // same path; disjoint documents, and a document merged before, are aligned.
  ghost predicate Aligned(dst: HTree, src: HTree)
    decreases src
  {
    dst.HNode? && src.HNode? ==>
      dst == src ||
      (dst.obj !in Objs(src) && src.obj !in Objs(dst) &&
       (forall k :: k in dst.kids && k in src.kids ==> Aligned(dst.kids[k], src.kids[k])) &&
       (forall k, l :: k in dst.kids && l in src.kids && k != l ==> Objs(dst.kids[k]) !! Objs(src.kids[l])))
  }

  ghost predicate Mergeable(dst: HTree, src: HTree) {
    dst.HNode? && src.HNode? && TreeShaped(dst) && TreeShaped(src) && Aligned(dst, src)
  }

  ghost function KidObjs(t: HTree, k: string): set<JsonMap>
    requires t.HNode?
  {
    if k in t.kids then Objs(t.kids[k]) else {}
  }

  lemma {:induction false} MergeTreeObjs(dst: HTree, src: HTree)
    ensures Objs(MergeTree(dst, src)) <= Objs(dst) + Objs(src)
    decreases src
  {
    if dst.HNode? && src.HNode? {
      forall k | k in dst.kids.Keys + src.kids.Keys
        ensures Objs(MergedKid(dst, src, k)) <= KidObjs(dst, k) + KidObjs(src, k)
      {
        MergedKidObjs(dst, src, k);
      }
    }
  }

  lemma MergedKidObjs(dst: HTree, src: HTree, k: string)
    requires dst.HNode? && src.HNode? && k in dst.kids.Keys + src.kids.Keys
    ensures Objs(MergedKid(dst, src, k)) <= KidObjs(dst, k) + KidObjs(src, k)
    decreases src, 0
  {
    if k in dst.kids && k in src.kids {
      MergeTreeObjs(dst.kids[k], src.kids[k]);
    }
  }

  // ----- the loop over the keys of the source -----

  // The destination when the keys in done have been handled.
  ghost function PartKid(dst: HTree, src: HTree, done: set<string>, k: string): HTree
    requires dst.HNode? && src.HNode? && done <= src.kids.Keys && k in dst.kids.Keys + done
  {
    if k in done then MergedKid(dst, src, k) else dst.kids[k]
  }

  ghost function PartTree(dst: HTree, src: HTree, done: set<string>): HTree
    requires dst.HNode? && src.HNode? && done <= src.kids.Keys
  {
    HNode(dst.obj, map k | k in dst.kids.Keys + done :: PartKid(dst, src, done, k))
  }

  lemma PartTreeEnds(dst: HTree, src: HTree)
    requires dst.HNode? && src.HNode?
    ensures PartTree(dst, src, {}) == dst
    ensures PartTree(dst, src, src.kids.Keys) == MergeTree(dst, src)
  {
    assert PartTree(dst, src, {}).kids == dst.kids;
    assert PartTree(dst, src, src.kids.Keys).kids == MergeTree(dst, src).kids;
  }

  // Nothing at key k of the destination is touched by work at another key.
  lemma KeysApart(dst: HTree, src: HTree, done: set<string>, key: string, k: string)
    requires Mergeable(dst, src) && done <= src.kids.Keys && key in dst.kids && key in src.kids
    requires k in dst.kids.Keys + done && k != key
    ensures Objs(PartKid(dst, src, done, k)) !! Objs(dst.kids[key])
    ensures k in src.kids ==> Objs(src.kids[k]) !! Objs(dst.kids[key])
  {
    if k in done { MergedKidObjs(dst, src, k); }
    if k in src.kids {
      if dst == src {
        assert Objs(dst.kids[k]) !! Objs(dst.kids[key]);
      }
    }
  }

  // The root of the destination is in no document below it.
  lemma RootApart(dst: HTree, src: HTree, done: set<string>, k: string)
    requires Mergeable(dst, src) && done <= src.kids.Keys && k in dst.kids.Keys + done
    ensures dst.obj !in Objs(PartKid(dst, src, done, k))
    ensures k in src.kids ==> dst.obj !in Objs(src.kids[k])
  {
    if k in done { MergedKidObjs(dst, src, k); }
  }

  // world is any set of existing objects that contains both documents.
  method MergeMap(dst: JsonMap, src: JsonMap, ghost dt: HTree, ghost st: HTree, ghost world: set<JsonMap>)
    requires Objs(dt) + Objs(st) <= world
    requires Mergeable(dt, st) && dt.obj == dst && st.obj == src
    requires Holds(dt) && Holds(st)
    modifies Objs(dt)
    ensures Holds(MergeTree(dt, st)) && Holds(st)
    decreases st, 1
  {
    hide TreeShaped, Aligned, Holds, PartTree, Objs;
    HoldsParts(st);
    var todo := src.fields.Keys;
    ghost var done: set<string> := {};
    PartTreeEnds(dt, st);
    while todo != {}
      invariant todo <= st.kids.Keys && done == st.kids.Keys - todo
      invariant Holds(PartTree(dt, st, done)) && Holds(st)
    {
      var key :| key in todo;
      MergeKey(dst, src, key, dt, st, done, world);
      todo := todo - {key};
      done := done + {key};
    }
    assert done == st.kids.Keys;
  }

  // The body of the loop for one key.
  method MergeKey(
    dst: JsonMap, src: JsonMap, key: string,
    ghost dt: HTree, ghost st: HTree, ghost done: set<string>, ghost world: set<JsonMap>)
    requires Objs(dt) + Objs(st) <= world
    requires Mergeable(dt, st) && dt.obj == dst && st.obj == src
    requires done <= st.kids.Keys && key in st.kids && key !in done
    requires Holds(PartTree(dt, st, done)) && Holds(st)
    modifies Objs(dt)
    ensures Holds(PartTree(dt, st, done + {key})) && Holds(st)
    decreases st, 0, 1
  {
    hide TreeShaped, Aligned, Holds, PartTree, Objs;
    KeyBefore(dt, st, done, key);
    var srcVal := src.fields[key];
    if key in dst.fields && dst.fields[key].Ref? && srcVal.Ref? {
      MergeBelow(dst.fields[key].obj, srcVal.obj, key, dt, st, done, world);
    } else {
      Override(dst, srcVal, key, dt, st, done);
    }
  }

  // The recursive call for a key bound to an object in both.
  method MergeBelow(
    below: JsonMap, srcBelow: JsonMap, key: string,
    ghost dt: HTree, ghost st: HTree, ghost done: set<string>, ghost world: set<JsonMap>)
    requires Objs(dt) + Objs(st) <= world
    requires Mergeable(dt, st) && done <= st.kids.Keys && key in st.kids && key !in done && key in dt.kids
    requires Entry(dt.kids[key]) == Ref(below) && Entry(st.kids[key]) == Ref(srcBelow)
    requires Holds(PartTree(dt, st, done)) && Holds(st)
    modifies Objs(dt)
    ensures Holds(PartTree(dt, st, done + {key})) && Holds(st)
    decreases st, 0, 0
  {
    hide TreeShaped, Aligned, MergeTree, Holds, PartTree;
    BothNodes(dt, st, done, key);
    ghost var before, after := PartTree(dt, st, done), PartTree(dt, st, done + {key});
    PartTreeStep(dt, st, done, key);
    HoldsParts(before);
    HoldsParts(st);
    forall k | k in after.kids && k != key
      ensures Objs(after.kids[k]) <= world && Objs(after.kids[k]) !! Objs(dt.kids[key])
    {
      KeysApart(dt, st, done, key, k);
      PartKidObjs(dt, st, done, k);
    }
    forall k | k in st.kids && k != key
      ensures Objs(st.kids[k]) <= world && Objs(st.kids[k]) !! Objs(dt.kids[key])
    {
      SourceApart(dt, st, key, k);
    }
    MergeMap(below, srcBelow, dt.kids[key], st.kids[key], world);
    HoldsNode(after);
    HoldsNode(st);
  }

  lemma PartKidObjs(dst: HTree, src: HTree, done: set<string>, k: string)
    requires dst.HNode? && src.HNode? && done <= src.kids.Keys && k in dst.kids.Keys + done
    ensures Objs(PartKid(dst, src, done, k)) <= Objs(dst) + Objs(src)
  {
    if k in done { MergedKidObjs(dst, src, k); }
  }

  lemma HoldsParts(t: HTree)
    requires Holds(t) && t.HNode?
    ensures t.obj.fields.Keys == t.kids.Keys
    ensures forall k :: k in t.kids ==> t.obj.fields[k] == Entry(t.kids[k]) && Holds(t.kids[k])
  {
  }

  lemma HoldsNode(t: HTree)
    requires t.HNode? && t.obj.fields.Keys == t.kids.Keys
    requires forall k :: k in t.kids ==> t.obj.fields[k] == Entry(t.kids[k]) && Holds(t.kids[k])
    ensures Holds(t)
  {
  }

  // One more key handled changes the destination at that key only.
  lemma PartTreeStep(dt: HTree, st: HTree, done: set<string>, key: string)
    requires dt.HNode? && st.HNode? && done <= st.kids.Keys && key in st.kids && key !in done
    ensures var before, after := PartTree(dt, st, done), PartTree(dt, st, done + {key});
            before.HNode? && after.HNode? && before.obj == after.obj == dt.obj &&
            before.kids.Keys == dt.kids.Keys + done &&
            after.kids.Keys == before.kids.Keys + {key} &&
            (forall k :: k in before.kids && k != key ==>
              after.kids[k] == before.kids[k] == PartKid(dt, st, done, k)) &&
            (key in dt.kids <==> key in before.kids) &&
            (key in dt.kids ==>
              before.kids[key] == dt.kids[key] && after.kids[key] == MergeTree(dt.kids[key], st.kids[key])) &&
            (key in dt.kids && dt.kids[key].HNode? && st.kids[key].HNode? ==>
              Entry(after.kids[key]) == Entry(dt.kids[key])) &&
            ((key in dt.kids ==> dt.kids[key].HLeaf? || st.kids[key].HLeaf?) ==> after.kids[key] == st.kids[key])
  {
    assert MergedKid(dt, st, key) == if key in dt.kids then MergeTree(dt.kids[key], st.kids[key]) else st.kids[key];
  }

  lemma SourceApart(dst: HTree, src: HTree, key: string, k: string)
    requires Mergeable(dst, src) && key in dst.kids && key in src.kids && k in src.kids && k != key
    ensures Objs(src.kids[k]) !! Objs(dst.kids[key])
  {
    if dst == src {
      assert Objs(dst.kids[k]) !! Objs(dst.kids[key]);
    }
  }

  // Binding key to the source's value where the two are not both objects.
  method Override(dst: JsonMap, srcVal: Value, key: string, ghost dt: HTree, ghost st: HTree, ghost done: set<string>)
    requires Mergeable(dt, st) && dt.obj == dst && done <= st.kids.Keys && key in st.kids && key !in done
    requires srcVal == Entry(st.kids[key])
    requires key in dt.kids ==> dt.kids[key].HLeaf? || st.kids[key].HLeaf?
    requires Holds(PartTree(dt, st, done)) && Holds(st)
    modifies dst
    ensures Holds(PartTree(dt, st, done + {key})) && Holds(st)
  {
    hide TreeShaped, Aligned, MergeTree, Holds, PartTree, Objs;
    ghost var before, after := PartTree(dt, st, done), PartTree(dt, st, done + {key});
    PartTreeStep(dt, st, done, key);
    HoldsParts(before);
    HoldsParts(st);
    dst.fields := dst.fields[key := srcVal];
    forall k | k in after.kids
      ensures after.obj.fields[k] == Entry(after.kids[k]) && Holds(after.kids[k])
    {
      if k != key { RootApart(dt, st, done, k); } else { RootApartSource(dt, st, key); }
    }
    HoldsNode(after);
    forall k | k in st.kids
      ensures Holds(st.kids[k])
    {
      RootApartSource(dt, st, k);
    }
    SourceRoot(dt, st);
    HoldsNode(st);
  }

  // The source's root is the destination's only if the two documents are the same.
  lemma SourceRoot(dst: HTree, src: HTree)
    requires Mergeable(dst, src)
    ensures dst.obj == src.obj ==> dst == src
  {
  }

  lemma RootApartSource(dst: HTree, src: HTree, k: string)
    requires Mergeable(dst, src) && k in src.kids
    ensures dst.obj !in Objs(src.kids[k])
  {
  }

  lemma KeyBefore(dt: HTree, st: HTree, done: set<string>, key: string)
    requires Mergeable(dt, st) && done <= st.kids.Keys && key in st.kids && key !in done
    requires Holds(PartTree(dt, st, done)) && Holds(st)
    ensures key in st.obj.fields && st.obj.fields[key] == Entry(st.kids[key])
    ensures key in dt.obj.fields <==> key in dt.kids
    ensures key in dt.kids ==> dt.obj.fields[key] == Entry(dt.kids[key])
    ensures dt.obj in Objs(dt)
  {
    hide TreeShaped, Aligned;
    assert key in dt.kids ==> PartTree(dt, st, done).kids[key] == dt.kids[key];
  }

  lemma BothNodes(dt: HTree, st: HTree, done: set<string>, key: string)
    requires Mergeable(dt, st) && key in dt.kids && key in st.kids
    requires dt.kids[key].HNode? && st.kids[key].HNode?
    ensures Mergeable(dt.kids[key], st.kids[key])
    ensures Objs(dt.kids[key]) <= Objs(dt) && Objs(st.kids[key]) <= Objs(st)
    ensures dt.obj in Objs(dt) && st.obj in Objs(st)
    ensures dt.obj !in Objs(dt.kids[key]) && st.obj !in Objs(dt.kids[key])
  {
  }

  // ----- the pure merge, and merging twice -----

  // The heap merge computes the merge of the documents.
  lemma {:induction false} MergeTreeRefines(dst: HTree, src: HTree)
    ensures Erase(MergeTree(dst, src)) == Merge(Erase(dst), Erase(src))
    decreases src
  {
    if dst.HNode? && src.HNode? {
      var merged := Merge(Erase(dst), Erase(src));
      forall k | k in merged.fields
        ensures Erase(MergedKid(dst, src, k)) == merged.fields[k]
      {
        if k in dst.kids && k in src.kids { MergeTreeRefines(dst.kids[k], src.kids[k]); }
      }
      assert Erase(MergeTree(dst, src)).fields == merged.fields;
    }
  }

  lemma {:induction false} DisjointAligned(dst: HTree, src: HTree)
    requires Objs(dst) !! Objs(src)
    ensures Aligned(dst, src)
    decreases src
  {
    if dst.HNode? && src.HNode? {
      forall k | k in dst.kids && k in src.kids
        ensures Aligned(dst.kids[k], src.kids[k])
      {
        assert Objs(dst.kids[k]) <= Objs(dst) && Objs(src.kids[k]) <= Objs(src);
        DisjointAligned(dst.kids[k], src.kids[k]);
      }
      forall k, l | k in dst.kids && l in src.kids
        ensures Objs(dst.kids[k]) !! Objs(src.kids[l])
      {
        assert Objs(dst.kids[k]) <= Objs(dst) && Objs(src.kids[l]) <= Objs(src);
      }
    }
  }

  lemma KidsApart(dst: HTree, src: HTree, k: string, l: string)
    requires dst.HNode? && src.HNode? && TreeShaped(dst) && TreeShaped(src) && Objs(dst) !! Objs(src)
    requires k in dst.kids.Keys + src.kids.Keys && l in dst.kids.Keys + src.kids.Keys && k != l
    ensures Objs(MergedKid(dst, src, k)) !! Objs(MergedKid(dst, src, l))
    ensures k in src.kids ==> Objs(MergedKid(dst, src, l)) !! Objs(src.kids[k])
  {
    MergedKidObjs(dst, src, k);
    MergedKidObjs(dst, src, l);
    assert KidObjs(dst, k) <= Objs(dst) && KidObjs(dst, l) <= Objs(dst);
    assert KidObjs(src, k) <= Objs(src) && KidObjs(src, l) <= Objs(src);
    assert KidObjs(dst, k) !! KidObjs(dst, l) && KidObjs(src, k) !! KidObjs(src, l);
  }

  // Merging two unshared documents leaves an unshared document, aligned with the
  // source it now shares subtrees with.
  lemma {:induction false} MergedAligned(dst: HTree, src: HTree)
    requires TreeShaped(dst) && TreeShaped(src) && Objs(dst) !! Objs(src)
    ensures TreeShaped(MergeTree(dst, src)) && Aligned(MergeTree(dst, src), src)
    decreases src
  {
    if dst.HNode? && src.HNode? {
      var merged := MergeTree(dst, src);
      forall k | k in merged.kids
        ensures TreeShaped(merged.kids[k]) && dst.obj !in Objs(merged.kids[k]) && src.obj !in Objs(merged.kids[k])
        ensures k in src.kids ==> Aligned(merged.kids[k], src.kids[k])
      {
        MergedKidObjs(dst, src, k);
        assert KidObjs(dst, k) <= Objs(dst) && KidObjs(src, k) <= Objs(src);
        if k in dst.kids && k in src.kids {
          assert Objs(dst.kids[k]) <= Objs(dst) && Objs(src.kids[k]) <= Objs(src);
          MergedAligned(dst.kids[k], src.kids[k]);
        } else if k in src.kids {
          SameAligned(src.kids[k]);
        }
      }
      forall k, l | k in merged.kids && l in merged.kids && k != l
        ensures Objs(merged.kids[k]) !! Objs(merged.kids[l])
        ensures l in src.kids ==> Objs(merged.kids[k]) !! Objs(src.kids[l])
      {
        KidsApart(dst, src, l, k);
      }
    } else {
      SameAligned(src);
    }
  }

  lemma SameAligned(t: HTree)
    ensures Aligned(t, t)
  {
  }

  lemma {:induction false} MergeTreeSelf(t: HTree)
    ensures MergeTree(t, t) == t
  {
    if t.HNode? {
      forall k | k in t.kids ensures MergedKid(t, t, k) == t.kids[k] { MergeTreeSelf(t.kids[k]); }
      assert MergeTree(t, t).kids == t.kids;
    }
  }

  lemma {:induction false} MergeTreeIdempotent(dst: HTree, src: HTree)
    ensures MergeTree(MergeTree(dst, src), src) == MergeTree(dst, src)
    decreases src
  {
    if dst.HNode? && src.HNode? {
      var once := MergeTree(dst, src);
      forall k | k in once.kids
        ensures MergedKid(once, src, k) == once.kids[k]
      {
        assert once.kids[k] == MergedKid(dst, src, k);
        if k in dst.kids && k in src.kids {
          MergeTreeIdempotent(dst.kids[k], src.kids[k]);
          assert MergedKid(dst, src, k) == MergeTree(dst.kids[k], src.kids[k]);
        } else if k in src.kids {
          MergeTreeSelf(src.kids[k]);
        }
      }
      assert MergeTree(once, src).kids == once.kids;
    } else {
      MergeTreeSelf(src);
    }
  }

  // overrideJSON: the override is merged into a freshly parsed document, which
  // then reads as the merge of the two.
  method OverrideJson(
    original: JsonMap, overrides: JsonMap, ghost dt: HTree, ghost st: HTree, ghost world: set<JsonMap>)
    requires dt.HNode? && st.HNode? && dt.obj == original && st.obj == overrides
    requires TreeShaped(dt) && TreeShaped(st) && Objs(dt) !! Objs(st) && Objs(dt) + Objs(st) <= world
    requires Holds(dt) && Holds(st)
    modifies Objs(dt)
    ensures Holds(MergeTree(dt, st)) && Holds(st)
    ensures Erase(MergeTree(dt, st)) == Merge(Erase(dt), Erase(st))
  {
    DisjointAligned(dt, st);
    MergeMap(original, overrides, dt, st, world);
    MergeTreeRefines(dt, st);
  }

  // Merging the same override again, when the destination already shares
  // subtrees with it, changes neither document.
  method MergeTwice(dst: JsonMap, src: JsonMap, ghost dt: HTree, ghost st: HTree, ghost world: set<JsonMap>)
    requires dt.HNode? && st.HNode? && dt.obj == dst && st.obj == src
    requires TreeShaped(dt) && TreeShaped(st) && Objs(dt) !! Objs(st) && Objs(dt) + Objs(st) <= world
    requires Holds(dt) && Holds(st)
    modifies Objs(dt) + Objs(st)
    ensures Holds(MergeTree(dt, st)) && Holds(st)
  {
    hide TreeShaped, Aligned, Holds;
    DisjointAligned(dt, st);
    MergeMap(dst, src, dt, st, world);
    MergedAligned(dt, st);
    MergeTreeObjs(dt, st);
    MergeTreeIdempotent(dt, st);
    MergeMap(dst, src, MergeTree(dt, st), st, world);
  }
}
