/**
  `font.rs`, the catalogue over the loader's fonts: a `Font` wrapping a loader
  `FontInfo`, ordered by full name, and `SortedFamilies::from`, which files every font
  under its family name and sorts the families by name. A family's `BinaryHeap` is
  modelled by its contents (a multiset).
*/
module FontFamilies {
  import opened Wrappers
  import Text
  import Utf8
  import Sorting
  import Grouping

  /** `loader::FontInfo`; its parsed `cmap` subtables play no part here and are left out. */
  datatype FontInfo = FontInfo(id: nat, path: string, index: nat, family: string, name: string)

  datatype Font = Font(info: FontInfo)

  /** `PartialEq for Font`: equal full names. */
  predicate Eq(a: Font, b: Font)
  {
    a.info.name == b.info.name
  }

  /** `Ord for Font`: the full names compared as `str`. */
  function Cmp(a: Font, b: Font): Text.Ordering
  {
    Text.Cmp(a.info.name, b.info.name)
  }

  /** `eq` holds exactly when `cmp` answers Equal, and `cmp` is a total order. */
  lemma EqIffCmpEqual(a: Font, b: Font, c: Font)
    ensures Eq(a, b) <==> Cmp(a, b) == Text.Equal
    ensures Cmp(a, b) == Text.Less <==> Cmp(b, a) == Text.Greater
    ensures Cmp(a, b) != Text.Greater && Cmp(b, c) != Text.Greater ==> Cmp(a, c) != Text.Greater
  {
    Text.CmpEqual(a.info.name, b.info.name);
    Text.CmpFlip(a.info.name, b.info.name);
    if Cmp(a, b) != Text.Greater && Cmp(b, c) != Text.Greater {
      Text.LeTransitive(a.info.name, b.info.name, c.info.name);
    }
  }

  /** `TryFrom<&FontInfo> for Font`: it never fails. */
  function TryFrom(info: FontInfo): Result<Font, ()>
  {
    Ok(Font(info))
  }

  class Family {
    const name: string
    var fonts: multiset<Font>
    const defaultNameWidth: nat

    /** `Family::new`: no fonts; the width is the byte length of the name. */
    constructor (name: string)
      ensures this.name == name && fonts == multiset{}
      ensures defaultNameWidth == Utf8.Len(name)
      ensures StylesCount() == 0
    {
      this.name := name;
      fonts := multiset{};
      defaultNameWidth := Utf8.Len(name);
    }

    /** `styles_count`: the number of fonts in the heap. */
    function StylesCount(): nat
      reads this
    {
      |fonts|
    }

    /** `add_font`: pushes one font. */
    method AddFont(font: Font)
      modifies this
      ensures fonts == old(fonts) + multiset{font}
      ensures StylesCount() == old(StylesCount()) + 1
    {
      fonts := fonts + multiset{font};
    }
  }

  /** The grouping key: `font.0.family_name()`. */
  function FamilyOf(f: Font): string
  {
    f.info.family
  }

  function NameOf(f: Family): string
  {
    f.name
  }

  /** The fonts of the set that convert, in set order. */
  function Converted(infos: seq<FontInfo>): seq<Font>
    decreases |infos|
  {
    if infos == [] then []
    else
      var n := |infos| - 1;
      Converted(infos[..n]) + (match TryFrom(infos[n]) case Ok(f) => [f] case Err(_) => [])
  }

  /** Since `try_from` never fails, every font of the set is kept, in order. */
  lemma {:induction false} ConvertedAll(infos: seq<FontInfo>)
    ensures |Converted(infos)| == |infos|
    ensures forall i | 0 <= i < |infos| :: Converted(infos)[i] == Font(infos[i])
  {
    if infos != [] {
      var n := |infos| - 1;
      ConvertedAll(infos[..n]);
    }
  }

  /** The state of the `HashMap` after filing the fonts `conv`. */
  ghost predicate Filed(m: map<string, Family>, order: seq<string>, conv: seq<Font>)
    reads m.Values
  {
    KeysFiled(m.Keys, order, conv) && NamesFiled(m) && FontsFiled(m, conv)
  }

  ghost predicate KeysFiled(keys: set<string>, order: seq<string>, conv: seq<Font>)
  {
    && keys == Grouping.Keys(conv, FamilyOf)
    && (forall k | k in order :: k in keys)
    && (forall k | k in keys :: k in order)
    && Sorting.Distinct(order)
  }

  ghost predicate NamesFiled(m: map<string, Family>)
  {
    forall k | k in m :: m[k].name == k
  }

  ghost predicate FontsFiled(m: map<string, Family>, conv: seq<Font>)
    reads m.Values
  {
    forall k | k in m :: m[k].fonts == multiset(Grouping.Members(conv, FamilyOf, k))
  }

  lemma KeysFiledStep(keys: set<string>, order: seq<string>, conv: seq<Font>, font: Font)
    requires KeysFiled(keys, order, conv)
    ensures FamilyOf(font) in keys ==> KeysFiled(keys, order, conv + [font])
    ensures FamilyOf(font) !in keys ==> KeysFiled(keys + {FamilyOf(font)}, order + [FamilyOf(font)], conv + [font])
  {
    Grouping.KeysStep(conv, FamilyOf, font);
  }

  /** Filing a font under a new family name: the map gains a family of that name holding
      just that font, and the order gains the name. */
  lemma FiledNew(m: map<string, Family>, order: seq<string>, conv: seq<Font>, font: Font, fam: Family)
    requires KeysFiled(m.Keys, order, conv) && NamesFiled(m) && FontsFiled(m, conv)
    requires FamilyOf(font) !in m
    requires fam.name == FamilyOf(font) && fam.fonts == multiset{font}
    ensures Filed(m[FamilyOf(font) := fam], order + [FamilyOf(font)], conv + [font])
  {
    var m' := m[FamilyOf(font) := fam];
    assert m'.Keys == m.Keys + {FamilyOf(font)};
    KeysFiledStep(m.Keys, order, conv, font);
    assert KeysFiled(m'.Keys, order + [FamilyOf(font)], conv + [font]);
    assert NamesFiled(m');
    FontsFiledNew(m, conv, font, fam);
  }

  lemma FontsFiledNew(m: map<string, Family>, conv: seq<Font>, font: Font, fam: Family)
    requires FontsFiled(m, conv) && FamilyOf(font) !in m && m.Keys == Grouping.Keys(conv, FamilyOf)
    requires fam.fonts == multiset{font}
    ensures FontsFiled(m[FamilyOf(font) := fam], conv + [font])
  {
    Grouping.MembersOfAbsent(conv, FamilyOf, FamilyOf(font));
    forall k | k in m[FamilyOf(font) := fam]
      ensures m[FamilyOf(font) := fam][k].fonts == multiset(Grouping.Members(conv + [font], FamilyOf, k))
    {
      Grouping.MembersStep(conv, FamilyOf, font, k);
    }
  }

  /** `Family::new(family)` for a font's family, then `add_font` of that font. */
  method NewFamilyWith(font: Font) returns (fam: Family)
    ensures fresh(fam) && fam.name == font.info.family && fam.fonts == multiset{font}
  {
    fam := new Family(font.info.family);
    fam.AddFont(font);
  }

  /** `or_insert_with(|| Family::new(family)).add_font(font)` for a new family name. */
  method FileNew(m: map<string, Family>, order: seq<string>, ghost conv: seq<Font>, font: Font)
    returns (m': map<string, Family>, order': seq<string>)
    requires KeysFiled(m.Keys, order, conv) && NamesFiled(m) && FontsFiled(m, conv)
    requires FamilyOf(font) !in m
    ensures Filed(m', order', conv + [font])
    ensures forall k | k in m :: m'[k] == m[k]
    ensures FamilyOf(font) in m' && fresh(m'[FamilyOf(font)])
  {
    var family := font.info.family;
    var fam := NewFamilyWith(font);
    FiledNew(m, order, conv, font, fam);
    m' := m[family := fam];
    order' := order + [family];
  }

  /** `entry(family).or_insert_with(..).add_font(font)` for a family already present. */
  method FileExisting(m: map<string, Family>, order: seq<string>, ghost conv: seq<Font>, font: Font)
    requires Filed(m, order, conv) && FamilyOf(font) in m
    modifies m[FamilyOf(font)]
    ensures Filed(m, order, conv + [font])
  {
    var family := font.info.family;
    KeysFiledStep(m.Keys, order, conv, font);
    assert forall k | k in m && k != family :: m[k] != m[family];
    label Before:
    m[family].AddFont(font);
    forall k | k in m
      ensures m[k].fonts == multiset(Grouping.Members(conv + [font], FamilyOf, k))
    {
      Grouping.MembersStep(conv, FamilyOf, font, k);
      if k != family {
        assert m[k] != m[family];
        assert m[k].fonts == old@Before(m[k].fonts);
      }
    }
  }

  /** The closure of the `for_each`: convert one font and, when that succeeds (always),
      file it. */
  method Visit(m: map<string, Family>, order: seq<string>, ghost conv: seq<Font>, info: FontInfo)
    returns (m': map<string, Family>, order': seq<string>, ghost conv': seq<Font>)
    requires Filed(m, order, conv)
    modifies m.Values
    ensures conv' == conv + (match TryFrom(info) case Ok(f) => [f] case Err(_) => [])
    ensures Filed(m', order', conv')
    ensures forall k | k in m' :: if k in m then m'[k] == m[k] else fresh(m'[k])
  {
    var r := TryFrom(info);
    m', order', conv' := m, order, conv;
    if r.Ok? {
      if FamilyOf(r.value) in m {
        FileExisting(m, order, conv, r.value);
      } else {
        m', order' := FileNew(m, order, conv, r.value);
      }
      conv' := conv + [r.value];
    }
  }

  /** What `SortedFamilies::from` must produce from the converted fonts: strictly
      increasing names, each a family name that occurs, holding exactly the fonts with
      that family name; every family name occurs once. */
  ghost predicate Sorted(conv: seq<Font>, families: seq<Family>)
    reads set j | 0 <= j < |families| :: families[j]
  {
    && (forall i, j | 0 <= i < j < |families| :: Text.Lt(families[i].name, families[j].name))
    && (forall j | 0 <= j < |families| ::
          families[j].name in Grouping.Keys(conv, FamilyOf) &&
          families[j].fonts == multiset(Grouping.Members(conv, FamilyOf, families[j].name)))
    && (forall k | k in Grouping.Keys(conv, FamilyOf) :: exists j | 0 <= j < |families| :: families[j].name == k)
  }

  /** One more font of the set converted. */
  lemma ConvertedStep(infos: seq<FontInfo>, i: nat)
    requires i < |infos|
    ensures Converted(infos[..i + 1]) == Converted(infos[..i]) + [Font(infos[i])]
  {
    assert infos[..i + 1][..i] == infos[..i];
  }

  /** The `for_each` over the font set. */
  method FileAll(infos: seq<FontInfo>) returns (m: map<string, Family>, order: seq<string>)
    ensures Filed(m, order, Converted(infos))
    ensures forall k | k in m :: fresh(m[k])
  {
    m, order := map[], [];
    for i := 0 to |infos|
      invariant Filed(m, order, Converted(infos[..i]))
      invariant forall k | k in m :: fresh(m[k])
    {
      ConvertedStep(infos, i);
      ghost var conv;
      m, order, conv := Visit(m, order, Converted(infos[..i]), infos[i]);
    }
    assert infos[..|infos|] == infos;
  }

  /** Sorting the values of a filed map gives what `from` promises. */
  lemma SortedFromFiled(m: map<string, Family>, order: seq<string>, conv: seq<Font>, families: seq<Family>)
    requires Filed(m, order, conv)
    requires forall i, j | 0 <= i < j < |families| :: Text.Lt(families[i].name, families[j].name)
    requires forall j | 0 <= j < |families| :: families[j].name in m && families[j] == m[families[j].name]
    requires forall k | k in m :: exists j | 0 <= j < |families| :: families[j].name == k
    ensures Sorted(conv, families)
  {
  }

  /** `SortedFamilies::from(&FontSet)`. */
  method From(infos: seq<FontInfo>) returns (families: seq<Family>)
    ensures Sorted(Converted(infos), families)
  {
    var m, order := FileAll(infos);
    families := Grouping.SortValues(m, order, NameOf);
    SortedFromFiled(m, order, Converted(infos), families);
  }

  /** Every font of the set is in the family named after its family name, and every
      font of a family is a font of the set with that family name. */
  lemma EveryFontPlaced(infos: seq<FontInfo>, families: seq<Family>, i: nat)
    requires Sorted(Converted(infos), families) && i < |infos|
    ensures exists j | 0 <= j < |families| ::
      families[j].name == infos[i].family && Font(infos[i]) in families[j].fonts
  {
    var conv := Converted(infos);
    ConvertedAll(infos);
    Grouping.KeysOccur(conv, FamilyOf);
    assert conv[i] == Font(infos[i]) && FamilyOf(conv[i]) == infos[i].family;
    var j :| 0 <= j < |families| && families[j].name == infos[i].family;
    Grouping.InOwnGroup(conv, FamilyOf, i);
  }

  lemma FamilyFontFromSet(infos: seq<FontInfo>, families: seq<Family>, j: nat, f: Font)
    requires Sorted(Converted(infos), families) && j < |families| && f in families[j].fonts
    ensures f.info.family == families[j].name && f.info in infos
  {
    var conv := Converted(infos);
    ConvertedAll(infos);
    Grouping.MemberOf(conv, FamilyOf, families[j].name, f);
    var i :| 0 <= i < |conv| && conv[i] == f;
  }
}
