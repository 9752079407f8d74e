/**
  `preview/terminal/ui/state.rs`: the state of the terminal preview, built from the
  sorted families of the catalogue (`font/mod.rs`). The FreeType library handle it
  also keeps is not modelled; the cached render results are of any type `R`.
*/
module TuiState {
  import opened Wrappers
  import ByLang
  import FontMod

  datatype State<R> = State(families: seq<FontMod.Family>, names: seq<string>, nameMaxWidth: nat,
                            index: nat, cache: seq<Option<R>>)

  /** Every family has a default name, as `SortedFamilies::from` guarantees; otherwise
      `get_default` would panic. */
  predicate Named(families: seq<FontMod.Family>)
  {
    forall j | 0 <= j < |families| :: ByLang.HasDefault(families[j].name)
  }

  /** `families.iter().map(|f| f.default_name_width).max().unwrap_or_default()`. */
  function MaxWidth(families: seq<FontMod.Family>): (w: nat)
    ensures forall j | 0 <= j < |families| :: families[j].defaultNameWidth <= w
  {
    if families == [] then 0
    else
      var rest := MaxWidth(families[1..]);
      if families[0].defaultNameWidth >= rest then families[0].defaultNameWidth else rest
  }

  /** The maximum is reached by some family, and is 0 only for no families or families
      of width 0. */
  lemma {:induction false} MaxWidthIsMaximum(families: seq<FontMod.Family>)
    ensures families == [] ==> MaxWidth(families) == 0
    ensures families != [] ==> exists j | 0 <= j < |families| :: MaxWidth(families) == families[j].defaultNameWidth
  {
    if |families| == 1 {
      assert families[1..] == [];
    } else if families != [] {
      MaxWidthIsMaximum(families[1..]);
      if MaxWidth(families) != families[0].defaultNameWidth {
        var j :| 0 <= j < |families[1..]| && MaxWidth(families[1..]) == families[1..][j].defaultNameWidth;
        assert MaxWidth(families) == families[j + 1].defaultNameWidth;
      }
    }
  }

  /** `families.iter().map(|f| *f.name.get_default()).collect()`. */
  function DefaultNames(families: seq<FontMod.Family>): (names: seq<string>)
    requires Named(families)
    ensures |names| == |families|
    ensures forall j | 0 <= j < |families| :: names[j] == ByLang.GetDefault(families[j].name)
  {
    seq(|families|, j requires 0 <= j < |families| => ByLang.GetDefault(families[j].name))
  }

  /** `vec![None; families.len()]`. */
  function EmptyCache<R>(n: nat): (cache: seq<Option<R>>)
    ensures |cache| == n && forall j | 0 <= j < n :: cache[j] == None
  {
    seq(n, _ => None)
  }

  /** `State::new`. */
  function New<R>(families: seq<FontMod.Family>): (s: State<R>)
    requires Named(families)
  {
    State(families, DefaultNames(families), MaxWidth(families), 0, EmptyCache(|families|))
  }

  /** A fresh state: the widest default name, one default name and one empty cache slot
      per family in family order, and the first family selected. */
  lemma NewState<R>(families: seq<FontMod.Family>)
    requires Named(families)
    ensures var s: State<R> := New(families);
      s.families == families && s.index == 0 &&
      |s.names| == |families| && |s.cache| == |families| &&
      (forall j | 0 <= j < |families| ::
        s.names[j] == ByLang.GetDefault(families[j].name) && s.cache[j].None? &&
        families[j].defaultNameWidth <= s.nameMaxWidth) &&
      (families == [] ==> s.nameMaxWidth == 0) &&
      (families != [] ==> exists j | 0 <= j < |families| :: s.nameMaxWidth == families[j].defaultNameWidth)
  {
    MaxWidthIsMaximum(families);
  }

  /** `current_name`: `names[index]`, which panics when out of range. */
  function CurrentName<R>(s: State<R>): (name: string)
    requires s.index < |s.names|
    ensures name in s.names
  {
    s.names[s.index]
  }

  /** In a fresh state the current name is the first family's default name. */
  lemma NewCurrentName<R>(families: seq<FontMod.Family>)
    requires Named(families) && families != []
    ensures var s: State<R> := New(families);
      s.index < |s.names| && CurrentName(s) == ByLang.GetDefault(families[0].name)
  {
  }
}
