/** The home page's selection: the two selected ids, the three click
    handlers that change them, the header label derived from them, the
    rendering rules that decide which clicks the page offers, and what the
    page hands to the protocol list. */
module Page {
  import opened Nullable
  import opened Taxonomy
  import ProtocolList

  /** The page state: `selectedCategory` and `selectedSubcategory`. */
  datatype Selection = Selection(category: Option<string>, subcategory: Option<string>)

  /** The state at mount: nothing selected. */
  const Initial := Selection(None, None)

  /** A click on one of the page's buttons, each handled atomically. */
  datatype Click = CategoryClick(categoryId: string) | SubcategoryClick(subcategoryId: string) | ClearClick

  /** The state after the handler of `click` has run. The methods of `Home`
      below are these handlers updating the page's fields, and each is proved
      to leave exactly `Step` of the old state; `Step` itself is what the
      reachability induction (`Run`, `Possible`, `RunPreservesInv`) runs over,
      since a lemma cannot call a method. */
  function Step(sel: Selection, click: Click): (r: Selection)
    ensures click.CategoryClick? ==> r.category == Some(click.categoryId) && r.subcategory.None?
    ensures click.SubcategoryClick? ==> r.category == sel.category && r.subcategory == Some(click.subcategoryId)
    ensures click.ClearClick? ==> r == Initial && !ShowClear(r)
    ensures click.SubcategoryClick? ==> (ShowClear(r) <==> click.subcategoryId != "" || Truthy(sel.category))
  {
    match click
    case CategoryClick(c) => Selection(Some(c), None)
    case SubcategoryClick(s) => sel.(subcategory := Some(s))
    case ClearClick => Initial
  }

  /** The state after a sequence of clicks. */
  function Run(sel: Selection, clicks: seq<Click>): Selection
    decreases |clicks|
  {
    if |clicks| == 0 then sel else Run(Step(sel, clicks[0]), clicks[1..])
  }

  /** The clear button is rendered: either selected id is truthy. */
  function ShowClear(sel: Selection): (r: bool)
    ensures !r <==> (sel.category == None || sel.category == Some("")) &&
                    (sel.subcategory == None || sel.subcategory == Some(""))
    ensures sel == Initial ==> !r
  {
    Truthy(sel.category) || Truthy(sel.subcategory)
  }

  /** The page renders a button for `click`: one per category; while the
      selected category is truthy, one per subcategory listed for it; and the
      clear button when it is shown. */
  ghost function Enabled(sel: Selection, click: Click): (r: bool)
    ensures click.CategoryClick? ==> (r <==> Find(Categories, click.categoryId).Some?)
    ensures click.SubcategoryClick? && r ==> ShowClear(sel)
    ensures click.SubcategoryClick? ==>
      (r <==> Truthy(sel.category) && sel.category.value in Subcategories &&
              Find(Subcategories[sel.category.value], click.subcategoryId).Some?)
    ensures click.ClearClick? ==> (r <==> ShowClear(sel))
  {
    match click
    case CategoryClick(c) => Listed(Categories, c)
    case SubcategoryClick(s) =>
      Truthy(sel.category) && sel.category.value in Subcategories &&
      Listed(Subcategories[sel.category.value], s)
    case ClearClick => ShowClear(sel)
  }

  /** Every click of the sequence is offered by the page when it happens. */
  ghost predicate Possible(sel: Selection, clicks: seq<Click>)
    decreases |clicks|
  {
    |clicks| == 0 || (Enabled(sel, clicks[0]) && Possible(Step(sel, clicks[0]), clicks[1..]))
  }

  /** The selection invariant: a selected category is one of the listed
      categories, and a subcategory is selected only under a selected
      category, and only one listed for that category. */
  ghost predicate Inv(sel: Selection) {
    (sel.category.Some? ==> Listed(Categories, sel.category.value)) &&
    (sel.subcategory.Some? ==>
      sel.category.Some? && sel.category.value in Subcategories &&
      Listed(Subcategories[sel.category.value], sel.subcategory.value))
  }

  /** The component: the two state fields and their three handlers. */
  class Home {
    var selectedCategory: Option<string>
    var selectedSubcategory: Option<string>

    function State(): Selection
      reads this
    {
      Selection(selectedCategory, selectedSubcategory)
    }

    constructor ()
      ensures State() == Initial && Inv(State())
    {
      selectedCategory := None;
      selectedSubcategory := None;
    }

    /** handleCategoryClick: select the category, drop any subcategory. */
    method HandleCategoryClick(categoryId: string)
      modifies this
      ensures selectedCategory == Some(categoryId) && selectedSubcategory == None
      ensures State() == Step(old(State()), CategoryClick(categoryId))
      ensures Enabled(old(State()), CategoryClick(categoryId)) ==> Inv(State())
    {
      selectedCategory := Some(categoryId);
      selectedSubcategory := None;
    }

    /** handleSubcategoryClick: select the subcategory, keep the category. */
    method HandleSubcategoryClick(subcategoryId: string)
      modifies this
      ensures selectedSubcategory == Some(subcategoryId) && selectedCategory == old(selectedCategory)
      ensures State() == Step(old(State()), SubcategoryClick(subcategoryId))
      ensures Inv(old(State())) && Enabled(old(State()), SubcategoryClick(subcategoryId)) ==> Inv(State())
    {
      selectedSubcategory := Some(subcategoryId);
    }

    /** clearFilters: deselect both; the clear button disappears. */
    method ClearFilters()
      modifies this
      ensures selectedCategory == None && selectedSubcategory == None
      ensures State() == Step(old(State()), ClearClick)
      ensures Inv(State()) && !ShowClear(State())
    {
      selectedCategory := None;
      selectedSubcategory := None;
    }
  }

  /** What each handler does, whatever the prior state: a category click
      selects that category and no subcategory, and a second identical click
      changes nothing; a subcategory click keeps the category; clearing
      deselects both and is idempotent. */
  lemma HandlerLaws(sel: Selection, categoryId: string, subcategoryId: string)
    ensures Step(sel, CategoryClick(categoryId)) == Selection(Some(categoryId), None)
    ensures Step(Step(sel, CategoryClick(categoryId)), CategoryClick(categoryId)) == Step(sel, CategoryClick(categoryId))
    ensures Step(sel, SubcategoryClick(subcategoryId)) == Selection(sel.category, Some(subcategoryId))
    ensures Step(sel, ClearClick) == Selection(None, None)
    ensures Step(Step(sel, ClearClick), ClearClick) == Step(sel, ClearClick)
  {
  }

  /** Every click the page offers keeps the invariant. */
  lemma StepPreservesInv(sel: Selection, click: Click)
    requires Inv(sel) && Enabled(sel, click)
    ensures Inv(Step(sel, click))
  {
  }

  /** Any sequence of offered clicks keeps the invariant. */
  lemma {:induction false} RunPreservesInv(sel: Selection, clicks: seq<Click>)
    requires Inv(sel) && Possible(sel, clicks)
    ensures Inv(Run(sel, clicks))
    decreases |clicks|
  {
    if |clicks| > 0 {
      StepPreservesInv(sel, clicks[0]);
      RunPreservesInv(Step(sel, clicks[0]), clicks[1..]);
    }
  }

  /** The invariant holds in every state reachable from mount by clicking
      buttons the page renders. */
  lemma ReachableInv(clicks: seq<Click>)
    requires Possible(Initial, clicks)
    ensures Inv(Run(Initial, clicks))
  {
    RunPreservesInv(Initial, clicks);
  }

  /** The rendering gate is what keeps the invariant: the handler itself
      accepts a subcategory with no category selected. */
  lemma UngatedSubcategoryClickBreaksInv()
    ensures !Inv(Step(Initial, SubcategoryClick("cardiac")))
  {
  }

  /** In a reachable state the clear button is shown exactly when a category
      is selected, that is, exactly when the state is not the initial one. */
  lemma ShowClearUnderInv(sel: Selection)
    requires Inv(sel)
    ensures ShowClear(sel) <==> sel.category.Some?
    ensures ShowClear(sel) <==> sel != Initial
  {
    TablesWellFormed();
    if sel.category.Some? {
      var i :| 0 <= i < |Categories| && Categories[i].id == sel.category.value;
    }
  }

  /** The separator of the two labels in the header. */
  const Arrow: string := " \U{2192} "

  /** getActiveCategoryLabel. `None` stands for the TypeError the page
      throws when a truthy category that is not a key of the subcategory
      table meets a truthy subcategory. */
  function ActiveCategoryLabel(sel: Selection, categories: seq<Category>,
                               subcategories: map<string, seq<Subcategory>>): (r: Option<string>)
    ensures r.None? <==>
      Truthy(sel.category) && Truthy(sel.subcategory) && sel.category.value !in subcategories
  {
    var category := if sel.category.Some? then Find(categories, sel.category.value) else None;
    if Truthy(sel.category) && Truthy(sel.subcategory) then
      if sel.category.value !in subcategories then None
      else
        match (category, Find(subcategories[sel.category.value], sel.subcategory.value))
        case (Some(c), Some(s)) => Some(c.caption + Arrow + s.caption)
        case (Some(c), None) => Some(c.caption)
        case (None, _) => Some("All Protocols")
    else
      match category
      case Some(c) => Some(c.caption)
      case None => Some("All Protocols")
  }

  /** The header, case by case: "All Protocols" when no category is selected
      or the selected one is not listed; the category's label alone when no
      subcategory is selected or the selected one is not listed under it;
      both labels joined by the arrow when both are found. Unlike the badges
      of the list, the header never falls back to a raw id. */
  lemma ActiveLabelCases(sel: Selection, categories: seq<Category>,
                         subcategories: map<string, seq<Subcategory>>)
    requires ActiveCategoryLabel(sel, categories, subcategories).Some?
    ensures var r := ActiveCategoryLabel(sel, categories, subcategories).value;
      && (sel.category.None? ==> r == "All Protocols")
      && (sel.category.Some? && !Listed(categories, sel.category.value) ==> r == "All Protocols")
      && (sel.category.Some? && Listed(categories, sel.category.value) ==>
            var c := Find(categories, sel.category.value).value;
            if Truthy(sel.category) && Truthy(sel.subcategory) &&
               Listed(subcategories[sel.category.value], sel.subcategory.value)
            then r == c.caption + Arrow + Find(subcategories[sel.category.value], sel.subcategory.value).value.caption
            else r == c.caption)
  {
  }

  /** On the page's tables, in a reachable state, the header is defined and
      reads "All Protocols" with nothing selected, the category's own label
      with only a category selected, and "<category> → <subcategory>" with
      both selected. */
  lemma HeaderUnderInv(sel: Selection)
    requires Inv(sel)
    ensures ActiveCategoryLabel(sel, Categories, Subcategories).Some?
    ensures sel.category.None? ==> ActiveCategoryLabel(sel, Categories, Subcategories) == Some("All Protocols")
    ensures sel.category.Some? && sel.subcategory.None? ==>
      ActiveCategoryLabel(sel, Categories, Subcategories) == Some(Find(Categories, sel.category.value).value.caption)
    ensures sel.category.Some? && sel.subcategory.Some? ==>
      ActiveCategoryLabel(sel, Categories, Subcategories) ==
        Some(Find(Categories, sel.category.value).value.caption + Arrow +
             Find(Subcategories[sel.category.value], sel.subcategory.value).value.caption)
  {
    TablesWellFormed();
    if sel.category.Some? {
      var i :| 0 <= i < |Categories| && Categories[i].id == sel.category.value;
      if sel.subcategory.Some? {
        var j :| 0 <= j < |Subcategories[sel.category.value]| &&
          Subcategories[sel.category.value][j].id == sel.subcategory.value;
      }
    }
    ActiveLabelCases(sel, Categories, Subcategories);
  }

  /** Selecting Adult, then Cardiac, puts "Adult → Cardiac" in the header. */
  lemma ExampleAdultCardiacHeader()
    ensures ActiveCategoryLabel(Step(Step(Initial, CategoryClick("adult")), SubcategoryClick("cardiac")),
                                Categories, Subcategories) == Some("Adult" + Arrow + "Cardiac")
  {
    var sel := Step(Step(Initial, CategoryClick("adult")), SubcategoryClick("cardiac"));
    assert Categories[0].id == "adult";
    assert Subcategories["adult"][0].id == "cardiac";
    HeaderUnderInv(sel);
    FindDistinct(Categories, 0);
    FindDistinct(Subcategories["adult"], 0);
  }

  /** The page's tables and the protocol catalog agree: every listed
      category is a catalog key, and every subcategory listed for it is a
      bucket of that category. */
  lemma TablesMatchCatalog()
    ensures forall i | 0 <= i < |Categories| :: ProtocolList.HasKey(ProtocolList.MockProtocols, Categories[i].id)
    ensures forall c, i | c in Subcategories && 0 <= i < |Subcategories[c]| ::
      ProtocolList.HasBucket(ProtocolList.MockProtocols, c, Subcategories[c][i].id)
  {
    var m := ProtocolList.MockProtocols;
    ProtocolList.MockProtocolsWellFormed();
    assert ProtocolList.DistinctKeys(m[0].1) && ProtocolList.DistinctKeys(m[1].1) && ProtocolList.DistinctKeys(m[2].1);
    forall k | 0 <= k < 3
      ensures ProtocolList.HasKey(m, m[k].0) && ProtocolList.Get(m, m[k].0) == m[k].1
      ensures ProtocolList.HasBucket(m, m[k].0, m[k].1[0].0) && ProtocolList.HasBucket(m, m[k].0, m[k].1[1].0)
    {
      ProtocolList.KeyIndexDistinct(m, k);
      ProtocolList.KeyIndexDistinct(m[k].1, 0);
      ProtocolList.KeyIndexDistinct(m[k].1, 1);
    }
  }

  /** A reachable selection never makes the list throw, and the list shows
      the full catalog filtered by the selection. */
  lemma ReachableListIsFilter(clicks: seq<Click>)
    requires Possible(Initial, clicks)
    ensures var sel := Run(Initial, clicks);
      ProtocolList.DispatchOk(ProtocolList.MockProtocols, sel.category, sel.subcategory) &&
      ProtocolList.Protocols(ProtocolList.MockProtocols, sel.category, sel.subcategory) ==
        ProtocolList.Selected(ProtocolList.AllProtocols(ProtocolList.MockProtocols), sel.category, sel.subcategory)
  {
    var sel := Run(Initial, clicks);
    ReachableInv(clicks);
    TablesMatchCatalog();
    if sel.category.Some? {
      var i :| 0 <= i < |Categories| && Categories[i].id == sel.category.value;
      if sel.subcategory.Some? {
        var j :| 0 <= j < |Subcategories[sel.category.value]| &&
          Subcategories[sel.category.value][j].id == sel.subcategory.value;
      }
    }
    ProtocolList.MockProtocolsWellFormed();
    ProtocolList.DispatchIsFilter(ProtocolList.MockProtocols, sel.category, sel.subcategory);
  }
}
