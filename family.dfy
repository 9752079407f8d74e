/**
  `family.rs`: the faces that can show the character, grouped into families by family
  name (a `HashMap` filled in input order), the families sorted by name and the faces of
  each family sorted by face name.
*/
module FaceFamily {
  import Text
  import Utf8
  import Sorting
  import Grouping
  import FaceInfoLoader

  type Face = FaceInfoLoader.FaceInfo

  class Family {
    const name: string
    var faces: seq<Face>
    const defaultNameWidth: nat

    /** `Family::new`: no faces yet; the width is the byte length of the name. */
    constructor (name: string)
      ensures this.name == name && faces == []
      ensures defaultNameWidth == Utf8.Len(name)
      ensures StylesCount() == 0
    {
      this.name := name;
      faces := [];
      defaultNameWidth := Utf8.Len(name);
    }

    /** `styles_count`: the number of faces. */
    function StylesCount(): nat
      reads this
    {
      |faces|
    }

    /** `add_face`: appends one face at the end. */
    method AddFace(face: Face)
      modifies this
      ensures faces == old(faces) + [face]
      ensures StylesCount() == old(StylesCount()) + 1
    {
      faces := faces + [face];
    }

    /** `faces.sort_unstable_by(|a, b| a.name.cmp(&b.name))`: the same faces, ordered by
        face name; the order of faces with equal names is unspecified. */
    method SortFaces()
      modifies this
      ensures multiset(faces) == multiset(old(faces))
      ensures Sorting.SortedBy(faces, FaceName)
    {
      faces := Sorting.SortBy(faces, FaceName);
    }
  }

  /** The grouping key of a face. */
  function FamilyOf(f: Face): string
  {
    f.family
  }

  /** The sort key of a face. */
  function FaceName(f: Face): string
  {
    f.name
  }

  /** The sort key of a family. */
  function NameOf(f: Family): string
  {
    f.name
  }

  /** The state of the `HashMap` after filing the faces `xs`: one family per family name,
      called by that name and holding the faces with it, in input order; `order` lists
      the names once each. */
  ghost predicate Filed(m: map<string, Family>, order: seq<string>, xs: seq<Face>)
    reads m.Values
  {
    KeysFiled(m.Keys, order, xs) && NamesFiled(m) && FacesFiled(m, xs)
  }

  ghost predicate KeysFiled(keys: set<string>, order: seq<string>, xs: seq<Face>)
  {
    && keys == Grouping.Keys(xs, FamilyOf)
    && (forall k | k in order :: k in keys)
    && (forall k | k in keys :: k in order)
    && Sorting.Distinct(order)
  }

  ghost predicate NamesFiled(m: map<string, Family>)
  {
    forall k | k in m :: m[k].name == k
  }

  ghost predicate FacesFiled(m: map<string, Family>, xs: seq<Face>)
    reads m.Values
  {
    forall k | k in m :: m[k].faces == Grouping.Members(xs, FamilyOf, k)
  }

  lemma KeysFiledStep(keys: set<string>, order: seq<string>, xs: seq<Face>, face: Face)
    requires KeysFiled(keys, order, xs)
    ensures face.family in keys ==> KeysFiled(keys, order, xs + [face])
    ensures face.family !in keys ==> KeysFiled(keys + {face.family}, order + [face.family], xs + [face])
  {
    Grouping.KeysStep(xs, FamilyOf, face);
  }

  /** `Family::new(family)` for a face's family, then `add_face` of that face. */
  method NewFamilyWith(face: Face) returns (family: Family)
    ensures fresh(family) && family.name == face.family && family.faces == [face]
  {
    family := new Family(face.family);
    family.AddFace(face);
  }

  /** `or_insert_with(|| Family::new(family)).add_face(face)` for a new family name. */
  method FileNew(m: map<string, Family>, order: seq<string>, ghost xs: seq<Face>, face: Face)
    returns (m': map<string, Family>, order': seq<string>)
    requires KeysFiled(m.Keys, order, xs) && NamesFiled(m) && FacesFiled(m, xs)
    requires face.family !in m
    ensures Filed(m', order', xs + [face])
    ensures forall k | k in m :: m'[k] == m[k]
    ensures face.family in m' && fresh(m'[face.family])
  {
    KeysFiledStep(m.Keys, order, xs, face);
    Grouping.MembersOfAbsent(xs, FamilyOf, face.family);
    var family := NewFamilyWith(face);
    m' := m[face.family := family];
    order' := order + [face.family];
    assert m'.Keys == m.Keys + {face.family};
    forall k | k in m'
      ensures m'[k].faces == Grouping.Members(xs + [face], FamilyOf, k)
    {
      Grouping.MembersAppend(xs, FamilyOf, face, k);
    }
  }

  /** `entry(family).or_insert_with(..).add_face(face)` for a family already present. */
  method FileExisting(m: map<string, Family>, order: seq<string>, ghost xs: seq<Face>, face: Face)
    requires Filed(m, order, xs) && face.family in m
    modifies m[face.family]
    ensures Filed(m, order, xs + [face])
  {
    KeysFiledStep(m.Keys, order, xs, face);
    assert forall k | k in m && k != face.family :: m[k] != m[face.family];
    label Before:
    m[face.family].AddFace(face);
    forall k | k in m
      ensures m[k].faces == Grouping.Members(xs + [face], FamilyOf, k)
    {
      Grouping.MembersAppend(xs, FamilyOf, face, k);
      if k != face.family {
        assert m[k] != m[face.family];
        assert m[k].faces == old@Before(m[k].faces);
      }
    }
  }

  /** The families a grouping of `xs` must produce: strictly increasing names, each a
      family name of the input, holding exactly the faces with that family name, ordered
      by face name. */
  ghost predicate Grouped(xs: seq<Face>, families: seq<Family>)
    reads set j | 0 <= j < |families| :: families[j]
  {
    && (forall i, j | 0 <= i < j < |families| :: Text.Lt(families[i].name, families[j].name))
    && (forall j | 0 <= j < |families| ::
          families[j].name in Grouping.Keys(xs, FamilyOf) &&
          Sorting.SortedBy(families[j].faces, FaceName) &&
          multiset(families[j].faces) == multiset(Grouping.Members(xs, FamilyOf, families[j].name)))
    && (forall k | k in Grouping.Keys(xs, FamilyOf) :: exists j | 0 <= j < |families| :: families[j].name == k)
  }

  /** The closure of the `for_each`: file one face. */
  method File(m: map<string, Family>, order: seq<string>, ghost xs: seq<Face>, face: Face)
    returns (m': map<string, Family>, order': seq<string>)
    requires Filed(m, order, xs)
    modifies m.Values
    ensures Filed(m', order', xs + [face])
    ensures forall k | k in m' :: if k in m then m'[k] == m[k] else fresh(m'[k])
  {
    if face.family in m {
      FileExisting(m, order, xs, face);
      m', order' := m, order;
    } else {
      m', order' := FileNew(m, order, xs, face);
    }
  }

  /** The `for_each` over the faces: the `HashMap` with every face filed, holding only
      newly made families. */
  method FileAll(xs: seq<Face>) returns (m: map<string, Family>, order: seq<string>)
    ensures Filed(m, order, xs)
    ensures forall k | k in m :: fresh(m[k])
  {
    m, order := map[], [];
    for i := 0 to |xs|
      invariant Filed(m, order, xs[..i])
      invariant forall k | k in m :: fresh(m[k])
    {
      Grouping.PrefixStep(xs, i);
      m, order := File(m, order, xs[..i], xs[i]);
    }
    assert xs[..|xs|] == xs;
  }

  /** `for family in &mut families { family.faces.sort_unstable_by(..) }`. */
  method SortEach(families: seq<Family>)
    requires forall i, j | 0 <= i < j < |families| :: families[i].name != families[j].name
    modifies set j | 0 <= j < |families| :: families[j]
    ensures forall j | 0 <= j < |families| ::
      Sorting.SortedBy(families[j].faces, FaceName) && multiset(families[j].faces) == multiset(old(families[j].faces))
  {
    for i := 0 to |families|
      invariant forall j | 0 <= j < i ::
        Sorting.SortedBy(families[j].faces, FaceName) &&
        multiset(families[j].faces) == multiset(old(families[j].faces))
      invariant forall j | i <= j < |families| :: families[j].faces == old(families[j].faces)
    {
      label Before:
      families[i].SortFaces();
      forall j | 0 <= j < |families| && j != i
        ensures families[j].faces == old@Before(families[j].faces)
      {
        assert families[j].name != families[i].name;
      }
    }
  }

  /** `group_by_family_sort_by_name`. */
  method GroupByFamilySortByName(xs: seq<Face>) returns (families: seq<Family>)
    ensures Grouped(xs, families)
    ensures TotalStyles(families) == |xs|
  {
    var m, order := FileAll(xs);
    families := Grouping.SortValues(m, order, NameOf);
    assert forall j | 0 <= j < |families| ::
      families[j] == m[families[j].name] &&
      families[j].faces == Grouping.Members(xs, FamilyOf, families[j].name);
    SortEach(families);
    CountGroups(xs, families);
  }

  // ---------------------------------------------------------------- counting

  /** The number of faces over all families. */
  function TotalStyles(families: seq<Family>): nat
    reads set j | 0 <= j < |families| :: families[j]
  {
    if families == [] then 0 else families[0].StylesCount() + TotalStyles(families[1..])
  }

  lemma {:induction false} TotalStylesIsSumSizes(xs: seq<Face>, families: seq<Family>, names: seq<string>)
    requires |names| == |families|
    requires forall j | 0 <= j < |names| ::
      multiset(families[j].faces) == multiset(Grouping.Members(xs, FamilyOf, names[j]))
    ensures TotalStyles(families) == Grouping.SumSizes(xs, FamilyOf, names)
  {
    if names != [] {
      assert |families[0].faces| == |multiset(families[0].faces)|;
      TotalStylesIsSumSizes(xs, families[1..], names[1..]);
    }
  }

  /** Every face lands in exactly one family: the family sizes add up to the input size. */
  lemma CountGroups(xs: seq<Face>, families: seq<Family>)
    requires Grouped(xs, families)
    ensures TotalStyles(families) == |xs|
  {
    var names := seq(|families|, j requires 0 <= j < |families| => families[j].name);
    assert Sorting.Distinct(names) by {
      forall a, b | 0 <= a < b < |names| ensures names[a] != names[b] {
        Text.CmpEqual(names[a], names[b]);
      }
    }
    TotalStylesIsSumSizes(xs, families, names);
    forall k | k in Grouping.Keys(xs, FamilyOf) ensures k in names {
      var j :| 0 <= j < |families| && families[j].name == k;
      assert names[j] == k;
    }
    Grouping.SumSizesCount(xs, FamilyOf, names);
  }

  // ---------------------------------------------------------------- consequences

  /** `face` is in a family named after its family name. */
  ghost predicate PlacedIn(face: Face, families: seq<Family>)
    reads set j | 0 <= j < |families| :: families[j]
  {
    exists j | 0 <= j < |families| :: families[j].name == face.family && face in families[j].faces
  }

  /** One input face and the family it is in. */
  lemma FacePlaced(xs: seq<Face>, families: seq<Family>, i: nat)
    requires Grouped(xs, families) && i < |xs|
    ensures PlacedIn(xs[i], families)
  {
    Grouping.KeysOccur(xs, FamilyOf);
    assert FamilyOf(xs[i]) in Grouping.Keys(xs, FamilyOf);
    var j :| 0 <= j < |families| && families[j].name == xs[i].family;
    Grouping.InOwnGroup(xs, FamilyOf, i);
    assert xs[i] in multiset(families[j].faces);
  }

  /** Each input face is in the family named after its family name. */
  lemma EachFacePlaced(xs: seq<Face>, families: seq<Family>)
    requires Grouped(xs, families)
    ensures forall i | 0 <= i < |xs| :: PlacedIn(xs[i], families)
  {
    forall i | 0 <= i < |xs| ensures PlacedIn(xs[i], families) {
      FacePlaced(xs, families, i);
    }
  }

  /** Every face of a family is an input face with that family name, so no face is in
      two families. */
  lemma FamilyFaceFromInput(xs: seq<Face>, families: seq<Family>, j: nat, f: Face)
    requires Grouped(xs, families)
    requires j < |families| && f in families[j].faces
    ensures f.family == families[j].name && f in xs
  {
    assert f in multiset(Grouping.Members(xs, FamilyOf, families[j].name));
    Grouping.MemberOf(xs, FamilyOf, families[j].name, f);
  }

  /** No input, no families; some input, some family. */
  lemma NoFacesNoFamilies(xs: seq<Face>, families: seq<Family>)
    requires Grouped(xs, families)
    ensures |families| == 0 <==> xs == []
  {
    if xs != [] {
      Grouping.KeysOccur(xs, FamilyOf);
      assert FamilyOf(xs[0]) in Grouping.Keys(xs, FamilyOf);
    }
    if families != [] {
      assert families[0].name in Grouping.Keys(xs, FamilyOf);
    }
  }
}
