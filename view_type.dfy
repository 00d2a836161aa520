/** ViewType: the four navigable views of the scheduling UI and the lookup of a view by its name. */
module ViewType {
  import opened Base

  datatype ViewType = HomeView | FirstView | SecondView | TreeTableView

  /** The values in declaration order, as `values()` returns them. */
  const Values: seq<ViewType> := [HomeView, FirstView, SecondView, TreeTableView]

  /** getViewName: the NAME constant of each view's class. */
  function ViewName(v: ViewType): (name: string)
    ensures |name| > 0
  {
    match v
    case HomeView => "homeView"
    case FirstView => "firstView"
    case SecondView => "secondView"
    case TreeTableView => "inProduction"
  }

  /** isStateful: no declared view keeps its state across navigation. */
  function IsStateful(v: ViewType): (stateful: bool)
    ensures !stateful
  {
    false
  }

  /** Every view occurs in `Values`, exactly once. */
  lemma ValuesEnumerate(v: ViewType)
    ensures v in Values
    ensures forall i, j :: 0 <= i < j < |Values| ==> Values[i] != Values[j]
  {
  }

  /** The four names are distinct, so a name determines its view. */
  lemma NamesDistinct(v: ViewType, w: ViewType)
    requires ViewName(v) == ViewName(w)
    ensures v == w
  {
    // The four names already differ in their first letter.
    assert ViewName(v)[0] == ViewName(w)[0];
  }

  /** getByViewName: scan the values in declaration order and stop at the first whose name matches;
      null (None) when none does. */
  method GetByViewName(viewName: string) returns (result: Option<ViewType>)
    ensures result.Some? ==> ViewName(result.value) == viewName
    ensures result.Some? ==> exists i :: 0 <= i < |Values| && Values[i] == result.value
                               && forall j :: 0 <= j < i ==> ViewName(Values[j]) != viewName
    ensures result.None? <==> forall v :: ViewName(v) != viewName
    ensures forall v :: ViewName(v) == viewName ==> result == Some(v)
  {
    result := None;
    ghost var hit := 0;
    for i := 0 to |Values|
      invariant result.None?
      invariant forall j :: 0 <= j < i ==> ViewName(Values[j]) != viewName
    {
      if ViewName(Values[i]) == viewName {
        result := Some(Values[i]);
        hit := i;
        break;
      }
    }
    if result.Some? {
      var v := result.value;
      assert 0 <= hit < |Values| && Values[hit] == v;
      forall w | ViewName(w) == viewName
        ensures result == Some(w)
      {
        NamesDistinct(v, w);
      }
    } else {
      forall v
        ensures ViewName(v) != viewName
      {
        ValuesEnumerate(v);
      }
    }
  }
}
