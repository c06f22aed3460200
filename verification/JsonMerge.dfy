// The recursive JSON override as a function on values, and its laws.
module JsonMerge {
  import opened Text

  // Quantity is a number written as a 0x-prefixed hexadecimal string.
  datatype Scalar = Number(n: nat) | Quantity(q: nat) | Str(s: string) | Other(raw: string)

  datatype Json = Leaf(value: Scalar) | Object(fields: map<string, Json>)

  // src wins, except that two objects are merged key by key.
  function Merge(dst: Json, src: Json): Json
    decreases src
  {
    if dst.Object? && src.Object? then
      Object(map k | k in dst.fields.Keys + src.fields.Keys ::
               if k !in src.fields then dst.fields[k]
               else if k !in dst.fields then src.fields[k]
               else Merge(dst.fields[k], src.fields[k]))
    else src
  }

  function Lookup(j: Json, path: seq<string>): Option<Json> {
    if path == [] then Some(j)
    else if j.Object? && path[0] in j.fields then Lookup(j.fields[path[0]], path[1..])
    else None
  }

  // A non-object sits above the end of the path.
  predicate Cut(j: Json, path: seq<string>) {
    path != [] && (j.Leaf? || (path[0] in j.fields && Cut(j.fields[path[0]], path[1..])))
  }

  // What every path of the merged document reads as.
  lemma {:induction false} MergeReads(dst: Json, src: Json, path: seq<string>)
    ensures Lookup(Merge(dst, src), path) ==
            match Lookup(src, path)
            case Some(Leaf(v)) => Some(Leaf(v))
            case Some(s) => (match Lookup(dst, path)
                             case Some(d) => Some(Merge(d, s))
                             case None => Some(s))
            case None => if Cut(src, path) then None else Lookup(dst, path)
    decreases path
  {
    if path != [] && dst.Object? && src.Object? && path[0] in src.fields {
      if path[0] in dst.fields {
        MergeReads(dst.fields[path[0]], src.fields[path[0]], path[1..]);
      } else {
        CutMissing(src.fields[path[0]], path[1..]);
      }
    } else if path != [] && src.Object? && dst.Leaf? {
      CutMissing(src, path);
    }
  }

  // Reading a document against a path: nothing there, unless cut.
  lemma {:induction false} CutMissing(j: Json, path: seq<string>)
    ensures Cut(j, path) ==> Lookup(j, path).None?
    decreases path
  {
    if path != [] && j.Object? && path[0] in j.fields {
      CutMissing(j.fields[path[0]], path[1..]);
    }
  }

  lemma {:induction false} MergeSelf(j: Json)
    ensures Merge(j, j) == j
  {
    if j.Object? {
      forall k | k in j.fields ensures Merge(j.fields[k], j.fields[k]) == j.fields[k] { MergeSelf(j.fields[k]); }
      assert Merge(j, j).fields == j.fields;
    }
  }

  // Applying an override a second time changes nothing.
  lemma {:induction false} MergeIdempotent(dst: Json, src: Json)
    ensures Merge(Merge(dst, src), src) == Merge(dst, src)
    decreases src
  {
    var once := Merge(dst, src);
    if dst.Object? && src.Object? {
      var twice := Merge(once, src);
      forall k | k in once.fields
        ensures k in twice.fields && twice.fields[k] == once.fields[k]
      {
        if k in src.fields {
          if k in dst.fields {
            MergeIdempotent(dst.fields[k], src.fields[k]);
          } else {
            MergeSelf(src.fields[k]);
          }
        }
      }
      assert twice.fields == once.fields;
    } else {
      MergeSelf(src);
    }
  }

  // ----- associativity -----

  // c has everything a has, so merging a under c adds nothing.
  predicate Covers(c: Json, a: Json)
    requires a.Object? && c.Object?
    decreases a
  {
    forall k :: k in a.fields ==>
      k in c.fields && (a.fields[k].Object? && c.fields[k].Object? ==> Covers(c.fields[k], a.fields[k]))
  }

  // Wherever the middle document puts a non-object between two objects, the
  // last one covers the first.
  predicate Associates(a: Json, b: Json, c: Json)
    decreases a
  {
    a.Object? && c.Object? ==>
      if b.Leaf? then Covers(c, a)
      else forall k :: k in a.fields && k in b.fields && k in c.fields ==>
        Associates(a.fields[k], b.fields[k], c.fields[k])
  }

  lemma {:induction false} CoversExact(a: Json, c: Json)
    requires a.Object? && c.Object?
    ensures Merge(a, c) == c <==> Covers(c, a)
    decreases a
  {
    var m := Merge(a, c);
    assert forall k :: k in a.fields ==> k in m.fields;
    forall k | k in a.fields && k in c.fields
      ensures m.fields[k] == c.fields[k] <==>
                (a.fields[k].Object? && c.fields[k].Object? ==> Covers(c.fields[k], a.fields[k]))
    {
      assert m.fields[k] == Merge(a.fields[k], c.fields[k]);
      if a.fields[k].Object? && c.fields[k].Object? { CoversExact(a.fields[k], c.fields[k]); }
    }
    if Covers(c, a) {
      assert m.fields == c.fields;
    }
  }

  // Merge is associative exactly on the documents that associate.
  lemma {:induction false} MergeAssociativeExact(a: Json, b: Json, c: Json)
    ensures Merge(Merge(a, b), c) == Merge(a, Merge(b, c)) <==> Associates(a, b, c)
    decreases a
  {
    if a.Object? && c.Object? {
      if b.Leaf? {
        CoversExact(a, c);
      } else {
        var left, right := Merge(Merge(a, b), c), Merge(a, Merge(b, c));
        assert left.fields.Keys == right.fields.Keys;
        forall k | k in left.fields
          ensures left.fields[k] == right.fields[k] <==>
                  (k in a.fields && k in b.fields && k in c.fields ==>
                    Associates(a.fields[k], b.fields[k], c.fields[k]))
        {
          if k in a.fields && k in b.fields && k in c.fields {
            MergeAssociativeExact(a.fields[k], b.fields[k], c.fields[k]);
          }
        }
        if Associates(a, b, c) {
          assert left.fields == right.fields;
        }
      }
    }
  }

  const LEAF := Leaf(Number(1))

  function Entry(key: string, value: Json): Json { Object(map[key := value]) }

  // A leaf in the middle document hides an object that the last one does not cover.
  lemma MergeNotAssociative()
    ensures var (a, b, c) := (Entry("x", Entry("p", LEAF)), Entry("x", LEAF), Entry("x", Object(map[])));
            !Associates(a, b, c) && Merge(Merge(a, b), c) != Merge(a, Merge(b, c))
  {
    var (a, b, c) := (Entry("x", Entry("p", LEAF)), Entry("x", LEAF), Entry("x", Object(map[])));
    assert "p" in a.fields["x"].fields && "p" !in c.fields["x"].fields;
    assert !Covers(c.fields["x"], a.fields["x"]);
    assert !Associates(a.fields["x"], b.fields["x"], c.fields["x"]);
    MergeAssociativeExact(a, b, c);
  }
}
