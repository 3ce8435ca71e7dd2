/** Edits of different specs on one device: when their order does not matter. */
module EditOrder {
  import opened Paths
  import opened Configs
  import opened SpecDiff

  /** One resource's step from its stored spec to its new one, with the diff it writes. */
  datatype SpecEdit = SpecEdit(stored: Config, spec: Config, ds: seq<Path>, us: seq<Change>)

  ghost predicate IsEdit(e: SpecEdit, schema: iset<Path>) {
    Conforms(e.stored, schema) && Conforms(e.spec, schema) && IsNormalisedDiff(e.stored, e.spec, e.ds, e.us)
  }

  /** If either edit writes the leaf, the other one writes it alike or not at all, and does not
      drop it. */
  ghost predicate IndependentAt(a: SpecEdit, b: SpecEdit, q: Path) {
    var ta, tb := Touched(a.stored, a.spec), Touched(b.stored, b.spec);
    && (q in ta && q in tb ==> ta[q] == tb[q])
    && (q in ta ==> !Dropped(b.stored, b.spec, q))
    && (q in tb ==> !Dropped(a.stored, a.spec, q))
  }

  ghost predicate Independent(a: SpecEdit, b: SpecEdit) {
    forall q :: IndependentAt(a, b, q)
  }

  ghost function ApplyEdit(c: Config, e: SpecEdit): Config {
    Apply(c, e.ds, e.us)
  }

  ghost function Effect(c: Config, e: SpecEdit): Config {
    Survivors(c, e.stored, e.spec) + Touched(e.stored, e.spec)
  }

  lemma EffectAt(c: Config, e: SpecEdit, q: Path)
    ensures var t := Touched(e.stored, e.spec);
            && (q in Effect(c, e) <==> q in t || (q in c && !Dropped(e.stored, e.spec, q)))
            && (q in t ==> Effect(c, e)[q] == t[q])
            && (q in Effect(c, e) && q !in t ==> Effect(c, e)[q] == c[q])
            && (q in t ==> !Dropped(e.stored, e.spec, q))
  {
  }

  ghost predicate SameAt(c: Config, c': Config, q: Path) {
    (q in c <==> q in c') && (q in c ==> c[q] == c'[q])
  }

  /** At one leaf: the two orders agree exactly when the edits are independent at that leaf. */
  lemma OrdersAgreeAt(c: Config, a: SpecEdit, b: SpecEdit, q: Path)
    ensures SameAt(Effect(Effect(c, a), b), Effect(Effect(c, b), a), q) <==> IndependentAt(a, b, q)
  {
    EffectAt(c, a, q);
    EffectAt(c, b, q);
    EffectAt(Effect(c, a), b, q);
    EffectAt(Effect(c, b), a, q);
  }

  lemma SameEverywhere(c: Config, c': Config)
    ensures c == c' <==> forall q :: SameAt(c, c', q)
  {
    if forall q :: SameAt(c, c', q) {
      assert forall q :: q in c <==> q in c' by {
        forall q ensures q in c <==> q in c' { assert SameAt(c, c', q); }
      }
      assert forall q | q in c :: c[q] == c'[q] by {
        forall q | q in c ensures c[q] == c'[q] { assert SameAt(c, c', q); }
      }
    }
  }

  lemma ApplyEditIsEffect(c: Config, e: SpecEdit, schema: iset<Path>)
    requires Conforms(c, schema) && IsEdit(e, schema)
    ensures ApplyEdit(c, e) == Effect(c, e) && Conforms(ApplyEdit(c, e), schema)
  {
    SpecDiffEffect(c, e.stored, e.spec, e.ds, e.us, schema);
    NormalisedDiffKeepsConforming(c, e.stored, e.spec, e.ds, e.us, schema);
  }

  /** On any conforming device two edits give the same in either order exactly when they are
      independent. */
  lemma EditsCommuteIff(c: Config, a: SpecEdit, b: SpecEdit, schema: iset<Path>)
    requires Conforms(c, schema) && IsEdit(a, schema) && IsEdit(b, schema)
    ensures ApplyEdit(ApplyEdit(c, a), b) == ApplyEdit(ApplyEdit(c, b), a) <==> Independent(a, b)
  {
    ApplyEditIsEffect(c, a, schema);
    ApplyEditIsEffect(c, b, schema);
    ApplyEditIsEffect(ApplyEdit(c, a), b, schema);
    ApplyEditIsEffect(ApplyEdit(c, b), a, schema);
    OrdersAgreeIff(c, a, b);
  }

  lemma OrdersAgreeIff(c: Config, a: SpecEdit, b: SpecEdit)
    ensures Effect(Effect(c, a), b) == Effect(Effect(c, b), a) <==> Independent(a, b)
  {
    var ab, ba := Effect(Effect(c, a), b), Effect(Effect(c, b), a);
    SameEverywhere(ab, ba);
    forall q ensures SameAt(ab, ba, q) <==> IndependentAt(a, b, q) {
      OrdersAgreeAt(c, a, b, q);
    }
  }

  // --- Any permutation of a list of edits

  ghost function ApplyEdits(c: Config, es: seq<SpecEdit>): Config {
    if es == [] then c else ApplyEdit(ApplyEdits(c, es[..|es| - 1]), es[|es| - 1])
  }

  ghost predicate AllIndependent(es: seq<SpecEdit>, schema: iset<Path>) {
    && (forall a | a in es :: IsEdit(a, schema))
    && (forall a, b | a in es && b in es :: Independent(a, b))
  }

  lemma PartIsIndependent(es: seq<SpecEdit>, part: seq<SpecEdit>, schema: iset<Path>)
    requires AllIndependent(es, schema) && forall a | a in part :: a in es
    ensures AllIndependent(part, schema)
  {
  }

  lemma {:induction false} ApplyEditsConforms(c: Config, es: seq<SpecEdit>, schema: iset<Path>)
    requires Conforms(c, schema) && AllIndependent(es, schema)
    ensures Conforms(ApplyEdits(c, es), schema)
  {
    if es == [] {
    } else {
      var front, last := es[..|es| - 1], es[|es| - 1];
      PartIsIndependent(es, front, schema);
      ApplyEditsConforms(c, front, schema);
      assert last in es;
      ApplyEditIsEffect(ApplyEdits(c, front), last, schema);
    }
  }

  ghost function Without(es: seq<SpecEdit>, i: nat): seq<SpecEdit>
    requires i < |es|
  {
    es[..i] + es[i + 1..]
  }

  lemma WithoutFront(front: seq<SpecEdit>, last: SpecEdit, i: nat)
    requires i < |front|
    ensures Without(front + [last], i) == Without(front, i) + [last]
  {
  }

  lemma ApplyEditsSnoc(c: Config, front: seq<SpecEdit>, last: SpecEdit)
    ensures ApplyEdits(c, front + [last]) == ApplyEdit(ApplyEdits(c, front), last)
  {
  }

  lemma SwapLastTwo(c: Config, rest: seq<SpecEdit>, x: SpecEdit, y: SpecEdit, es: seq<SpecEdit>, schema: iset<Path>)
    requires Conforms(c, schema) && AllIndependent(es, schema)
    requires x in es && y in es && forall a | a in rest :: a in es
    ensures ApplyEdit(ApplyEdit(ApplyEdits(c, rest), x), y) == ApplyEdit(ApplyEdit(ApplyEdits(c, rest), y), x)
  {
    PartIsIndependent(es, rest, schema);
    ApplyEditsConforms(c, rest, schema);
    EditsCommuteIff(ApplyEdits(c, rest), x, y, schema);
  }

  lemma {:induction false} LastMayBeAny(c: Config, es: seq<SpecEdit>, i: nat, schema: iset<Path>)
    requires Conforms(c, schema) && AllIndependent(es, schema) && i < |es|
    ensures ApplyEdits(c, es) == ApplyEdit(ApplyEdits(c, Without(es, i)), es[i])
  {
    var front, last := es[..|es| - 1], es[|es| - 1];
    assert es == front + [last];
    if i == |front| {
      assert Without(es, i) == front;
    } else {
      PartIsIndependent(es, front, schema);
      LastMayBeAny(c, front, i, schema);
      WithoutFront(front, last, i);
      ApplyEditsSnoc(c, Without(front, i), last);
      SwapLastTwo(c, Without(front, i), es[i], last, es, schema);
    }
  }

  lemma MatchingMember(es: seq<SpecEdit>, front: seq<SpecEdit>, x: SpecEdit) returns (i: nat)
    requires multiset(es) == multiset(front + [x])
    ensures i < |es| && es[i] == x && multiset(Without(es, i)) == multiset(front)
    ensures forall a | a in Without(es, i) :: a in es
  {
    assert x in multiset(front + [x]);
    assert x in multiset(es);
    i :| 0 <= i < |es| && es[i] == x;
    assert es == es[..i] + [x] + es[i + 1..];
    assert multiset(Without(es, i)) == multiset(es) - multiset{x};
    assert multiset(front) == multiset(front + [x]) - multiset{x};
  }

  /** Edits that are independent of each other lead any conforming device to the same
      configuration in every order. */
  lemma {:induction false} EditsInAnyOrder(c: Config, es: seq<SpecEdit>, es': seq<SpecEdit>, schema: iset<Path>)
    requires Conforms(c, schema) && AllIndependent(es, schema)
    requires multiset(es) == multiset(es')
    ensures ApplyEdits(c, es) == ApplyEdits(c, es')
    decreases |es'|
  {
    assert |es| == |multiset(es)| == |multiset(es')| == |es'|;
    if es' != [] {
      var front, x := es'[..|es'| - 1], es'[|es'| - 1];
      assert es' == front + [x];
      var i := MatchingMember(es, front, x);
      LastMayBeAny(c, es, i, schema);
      PartIsIndependent(es, Without(es, i), schema);
      EditsInAnyOrder(c, Without(es, i), front, schema);
    }
  }
}
