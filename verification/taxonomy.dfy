/** The static category and subcategory tables of the home page, and the
    `find` by identifier that both components use on them. */
module Taxonomy {
  import opened Nullable

  /** The glyph a button shows: a display-only handle, never inspected. */
  datatype Icon = Stethoscope | Baby | BookOpen | Heart | Activity | ClipboardList

  /** The record shape shared by `Category` and `Subcategory`: an identifier,
      a display label (`caption`, the source's `label`), and two display-only attributes. */
  datatype Facet = Facet(id: string, caption: string, icon: Icon, color: string)

  type Category = Facet
  type Subcategory = Facet

  /** Some entry of `items` has identifier `id`. */
  ghost predicate Listed(items: seq<Facet>, id: string) {
    exists i | 0 <= i < |items| :: items[i].id == id
  }

  /** No two entries of `items` share an identifier. */
  ghost predicate DistinctIds(items: seq<Facet>) {
    forall i, j | 0 <= i < j < |items| :: items[i].id != items[j].id
  }

  /** The position of the first entry with identifier `id`, if there is one. */
  function IndexOf(items: seq<Facet>, id: string): (r: Option<nat>)
    ensures r.Some? ==> r.value < |items| && items[r.value].id == id
    ensures r.Some? ==> forall j | 0 <= j < r.value :: items[j].id != id
    ensures r.None? <==> !Listed(items, id)
  {
    if |items| == 0 then None
    else if items[0].id == id then Some(0)
    else match IndexOf(items[1..], id)
      case None =>
        assert forall j | 1 <= j < |items| :: items[j] == items[1..][j - 1];
        None
      case Some(i) => Some(i + 1)
  }

  /** `items.find(f => f.id === id)`: the first entry with identifier `id`. */
  function Find(items: seq<Facet>, id: string): (r: Option<Facet>)
    ensures r.Some? <==> Listed(items, id)
    ensures r.Some? ==> r.value.id == id && r.value in items
  {
    match IndexOf(items, id)
    case None => None
    case Some(i) => Some(items[i])
  }

  /** `find` returns the first match: an entry preceded by no other entry
      with its identifier is the one found. */
  lemma FindIsFirst(items: seq<Facet>, i: nat)
    requires i < |items|
    requires forall j | 0 <= j < i :: items[j].id != items[i].id
    ensures Find(items, items[i].id) == Some(items[i])
  {
  }

  /** With distinct identifiers, looking up any entry's identifier finds
      exactly that entry. */
  lemma FindDistinct(items: seq<Facet>, i: nat)
    requires i < |items| && DistinctIds(items)
    ensures Find(items, items[i].id) == Some(items[i])
  {
    FindIsFirst(items, i);
  }

  /** The three category buttons, in display order (app/page.tsx). */
  const Categories: seq<Category> := [
    Facet("adult", "Adult", Stethoscope, "bg-blue-500 hover:bg-blue-600"),
    Facet("pediatric", "Pediatric", Baby, "bg-purple-500 hover:bg-purple-600"),
    Facet("reference", "Reference", BookOpen, "bg-emerald-500 hover:bg-emerald-600")
  ]

  /** The subcategory buttons of each category. */
  const Subcategories: map<string, seq<Subcategory>> := map[
    "adult" := [
      Facet("cardiac", "Cardiac", Heart, "bg-red-500 hover:bg-red-600"),
      Facet("general", "General", Activity, "bg-sky-500 hover:bg-sky-600")
    ],
    "pediatric" := [
      Facet("cardiac", "Cardiac", Heart, "bg-red-500 hover:bg-red-600"),
      Facet("general", "General", Activity, "bg-sky-500 hover:bg-sky-600")
    ],
    "reference" := [
      Facet("medications", "Medications", ClipboardList, "bg-amber-500 hover:bg-amber-600"),
      Facet("operations", "Operations", Activity, "bg-indigo-500 hover:bg-indigo-600")
    ]
  ]

  /** The tables are well formed: identifiers are distinct and non-empty and
      labels are non-empty and differ from their ids, in the category list and
      in every subcategory list; every listed category has a subcategory list. */
  lemma TablesWellFormed()
    ensures DistinctIds(Categories)
    ensures forall i | 0 <= i < |Categories| :: Categories[i].id != "" && Categories[i].caption != ""
    ensures forall i | 0 <= i < |Categories| :: Categories[i].caption != Categories[i].id
    ensures forall i | 0 <= i < |Categories| :: Categories[i].id in Subcategories
    ensures forall c | c in Subcategories :: DistinctIds(Subcategories[c])
    ensures forall c, i | c in Subcategories && 0 <= i < |Subcategories[c]| ::
      Subcategories[c][i].id != "" && Subcategories[c][i].caption != ""
    ensures forall c, i | c in Subcategories && 0 <= i < |Subcategories[c]| ::
      Subcategories[c][i].caption != Subcategories[c][i].id
  {
  }
}
