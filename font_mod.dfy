/**
  The font catalogue of `font/mod.rs`: a `Font` with its names by language, ordered
  by its default full name, and a `Family` collecting fonts in a binary heap. The heap
  is modelled by its contents (a multiset); the order it would pop them in is not
  modelled.
*/
module FontMod {
  import ByLang
  import Text
  import Utf8

  datatype Font = Font(familyNames: ByLang.LangMap<string>, fullnames: ByLang.LangMap<string>,
                       path: string, index: nat)

  /** A font whose default full name exists, so that `eq`/`cmp` do not panic. */
  predicate Comparable(f: Font)
  {
    ByLang.HasDefault(f.fullnames)
  }

  function DefaultFullname(f: Font): string
    requires Comparable(f)
  {
    ByLang.GetDefault(f.fullnames)
  }

  /** `PartialEq for Font`: the default full names are equal. */
  predicate Eq(a: Font, b: Font)
    requires Comparable(a) && Comparable(b)
  {
    DefaultFullname(a) == DefaultFullname(b)
  }

  /** `Ord for Font`: the default full names compared as `str`. */
  function Cmp(a: Font, b: Font): Text.Ordering
    requires Comparable(a) && Comparable(b)
  {
    Text.Cmp(DefaultFullname(a), DefaultFullname(b))
  }

  /** `eq` and `cmp` agree, as `Ord` requires. */
  lemma EqIffCmpEqual(a: Font, b: Font)
    requires Comparable(a) && Comparable(b)
    ensures Eq(a, b) <==> Cmp(a, b) == Text.Equal
  {
    Text.CmpEqual(DefaultFullname(a), DefaultFullname(b));
  }

  /** `cmp` is a total order: antisymmetric and transitive. */
  lemma CmpIsTotalOrder(a: Font, b: Font, c: Font)
    requires Comparable(a) && Comparable(b) && Comparable(c)
    ensures Cmp(a, b) == Text.Less <==> Cmp(b, a) == Text.Greater
    ensures Cmp(a, b) != Text.Greater && Cmp(b, c) != Text.Greater ==> Cmp(a, c) != Text.Greater
  {
    Text.CmpFlip(DefaultFullname(a), DefaultFullname(b));
    if Cmp(a, b) != Text.Greater && Cmp(b, c) != Text.Greater {
      Text.LeTransitive(DefaultFullname(a), DefaultFullname(b), DefaultFullname(c));
    }
  }

  class Family {
    const name: ByLang.LangMap<string>
    var fonts: multiset<Font>
    const defaultNameWidth: nat

    /** `Family::new`: the width is the byte length of the default name; no fonts. */
    constructor (name: ByLang.LangMap<string>)
      requires ByLang.HasDefault(name)
      ensures this.name == name && fonts == multiset{}
      ensures defaultNameWidth == Utf8.Len(ByLang.GetDefault(name))
      ensures StylesCount() == 0
    {
      this.name := name;
      fonts := multiset{};
      defaultNameWidth := Utf8.Len(ByLang.GetDefault(name));
    }

    /** `styles_count`: the number of fonts in the heap. */
    function StylesCount(): nat
      reads this
    {
      |fonts|
    }

    /** `add_font`: pushes one font. */
    method AddFont(font: Font)
      modifies this
      ensures fonts == old(fonts) + multiset{font}
      ensures StylesCount() == old(StylesCount()) + 1
    {
      fonts := fonts + multiset{font};
    }
  }
}
