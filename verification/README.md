# EMS protocol browser — selection and projection model

A Dafny model of the two pieces of logic in the EMS protocol browser.

- **The home page's selection** (`app/page.tsx`). The page holds a selected
  category and a selected subcategory. Each may be null. Three click handlers
  change them. Category buttons select a category and drop the subcategory.
  Subcategory buttons select a subcategory and are rendered only while a
  category is selected, one button per subcategory listed for it. The clear
  button deselects both and is rendered only while something is selected. A
  header label is derived from the selection.
- **The protocol list** (`components/ProtocolList.tsx`). A static nested
  catalog maps category → subcategory → ordered protocols. The list flattens
  it and tags every protocol with the ids of its bucket. It does this for all
  buckets, for one category, or for one (category, subcategory) bucket,
  depending on the selection. Each card shows two badge labels and links to
  `/protocols/<category>/<subcategory>/<id>`.

Files:

- `nullable.dfy` (module `Nullable`): `Option` stands for `T | null`.
  `Truthy` is JavaScript truthiness of a `string | null`, where `null` and
  `""` are both falsy.
- `taxonomy.dfy` (module `Taxonomy`): the `Category`/`Subcategory` record
  (`Facet`, whose `caption` is the source's `label`) and `Find`, which models
  `Array.prototype.find` by id. Also the `categories` and `subcategories`
  tables of the page.
- `protocol_list.dfy` (module `ProtocolList`): the catalog and the three
  projections, the dispatch, the badge labels and the href. It also holds a
  reference definition of each projection as a filter of the full list
  (`Where`, `Selected`) and the lemmas that connect the two.
- `page.dfy` (module `Page`): the `Home` class with its two fields and three
  handlers. Beside it are the pure transition `Step` and the rendering gate
  `Enabled`, the reachable-state invariant `Inv`, and the header label
  `ActiveCategoryLabel`. The bridge lemma `ReachableListIsFilter` shows that
  the selection the page hands to the list never makes the list throw.

The model follows the code where it differs from a plain reading of it:

- **Truthiness, not null.** The code tests `selectedCategory &&`,
  `category ? … : …` and `selectedCategory || selectedSubcategory` by
  truthiness, so an empty id behaves like `null`. The model uses `Truthy`
  at exactly those places. `categories.find(c => c.id === selectedCategory)`
  is a strict comparison and is modelled as one.
- **The header does not fall back to raw ids.** An unknown category gives
  "All Protocols". A known category with a missing or unknown subcategory
  gives the category label alone. Only the two badge lookups of the list
  fall back to the raw id (`|| id`, which also catches an empty label).
- **A subcategory click is not a no-op without a category.**
  `handleSubcategoryClick` sets the subcategory whatever the state. The
  invariant "subcategory set ⇒ category set and listed for it" holds because
  the page renders subcategory buttons only under a selected category.
  `UngatedSubcategoryClickBreaksInv` shows that the handler alone does not
  keep it.
- **Throwing lookups.** `getProtocolsForCategory` and
  `getProtocolsForSubcategory` index the catalog without a guard. They are
  modelled with `requires` (the catalog must have the key).
  `getActiveCategoryLabel` indexes `subcategories[selectedCategory]` without
  a guard whenever both ids are truthy. It is modelled as returning `None`
  for that TypeError, and `HeaderUnderInv` shows that no reachable state
  produces it.

## Model

| member | source | states |
|---|---|---|
| Taxonomy.IndexOf | app/page.tsx:50 | the index found is the first one whose id matches; there is none exactly when no entry has the id |
| Taxonomy.Find | app/page.tsx:50 | `find` by id succeeds exactly when some entry has the id, and returns an entry of the list with that id |
| Taxonomy.FindIsFirst | app/page.tsx:50 | `find` returns the first entry with the id, not a later one |
| Taxonomy.FindDistinct | components/ProtocolList.tsx:110 | with distinct ids, looking up an entry's id returns that very entry |
| Taxonomy.TablesWellFormed | app/page.tsx:10-29 | the category and subcategory tables have distinct, non-empty ids and non-empty labels that differ from their ids, and every category has a subcategory list |
| ProtocolList.KeyIndex | components/ProtocolList.tsx:85 | looking up a key of the catalog object finds the first entry with that key, or reports that no entry has it |
| ProtocolList.KeyIndexDistinct | components/ProtocolList.tsx:96 | in an object with distinct keys, looking up an entry's key finds that entry |
| ProtocolList.Tag | components/ProtocolList.tsx:75-79 | mapping a bucket keeps its length and order; entry i carries protocol i's id and title unchanged, tagged with the given category and subcategory ids |
| ProtocolList.CategoryBlock | components/ProtocolList.tsx:86-92 | flattening one category's buckets gives as many entries as the buckets hold, all tagged with that category |
| ProtocolList.AllProtocols | components/ProtocolList.tsx:72-82 | getAllProtocols has exactly as many entries as all buckets of the catalog together |
| ProtocolList.AllProtocolsAppend | components/ProtocolList.tsx:73-81 | flattening two catalogs laid end to end gives the two flattened lists laid end to end, so category order is kept |
| ProtocolList.ProtocolsForCategory | components/ProtocolList.tsx:84-93 | for a catalog key c, every entry is tagged with c and there are as many as c's buckets hold |
| ProtocolList.ProtocolsForSubcategory | components/ProtocolList.tsx:95-101 | for catalog keys (c, s), the result is bucket [c][s] with the same length and order, each protocol tagged with c and s |
| ProtocolList.Protocols | components/ProtocolList.tsx:103-107 | with a truthy category every entry shown belongs to it; with both ids truthy every entry also belongs to the subcategory |
| ProtocolList.ProtocolsForCategoryIsFilter | components/ProtocolList.tsx:84-93 | getProtocolsForCategory(c) equals getAllProtocols filtered by category c, in the same order; a category missing from the catalog filters to nothing |
| ProtocolList.BucketIsFilter | components/ProtocolList.tsx:86-92 | within one category, bucket s tagged equals the category's entries filtered by subcategory s; a missing s filters to nothing |
| ProtocolList.ProtocolsForSubcategoryIsFilter | components/ProtocolList.tsx:95-101 | getProtocolsForSubcategory(c, s) equals getProtocolsForCategory(c) filtered by subcategory s |
| ProtocolList.DispatchIsFilter | components/ProtocolList.tsx:103-107 | the list shown is the full list filtered by the selection: all entries when the category is falsy even if a subcategory is set, category c's entries when only c is set, and bucket (c, s) when both are set |
| ProtocolList.AllProtocolsMembers | components/ProtocolList.tsx:72-82 | an entry is in getAllProtocols exactly when the catalog has its (category, subcategory) bucket and that bucket holds a protocol with its id and title |
| ProtocolList.CategoryContiguous | components/ProtocolList.tsx:72-93 | getAllProtocols is the categories declared before c, then getProtocolsForCategory(c), then the categories declared after c |
| ProtocolList.CategorySlice | components/ProtocolList.tsx:72-93 | getProtocolsForCategory(c) is the slice of getAllProtocols that starts right after the protocols of the earlier categories |
| ProtocolList.CategoryBlockAppend | components/ProtocolList.tsx:86-92 | flattening two lists of buckets laid end to end gives the two flattened lists laid end to end, so bucket order is kept |
| ProtocolList.BucketContiguous | components/ProtocolList.tsx:86-101 | a category's entries are the buckets declared before s, then bucket s tagged, then the buckets declared after s |
| ProtocolList.SubcategorySlice | components/ProtocolList.tsx:84-101 | getProtocolsForSubcategory(c, s) is a contiguous slice of getProtocolsForCategory(c), right after c's earlier buckets |
| ProtocolList.CategoryLabel | components/ProtocolList.tsx:109-111 | the category badge is the raw id when no category has it; otherwise it is either the raw id or the non-empty label of a category with that id; it is never empty for a non-empty id; it never fails |
| ProtocolList.SubcategoryLabel | components/ProtocolList.tsx:113-115 | the subcategory badge is the raw id when the category has no list or the id is not in it; otherwise it is the raw id or the non-empty label of a subcategory with that id under that category; it never fails |
| ProtocolList.CategoryLabelOfListed | components/ProtocolList.tsx:109-111 | the badge of a category id is decided by the first category with that id: its label, or the raw id when that label is empty |
| ProtocolList.SubcategoryLabelOfListed | components/ProtocolList.tsx:113-115 | the badge of a subcategory id is decided by the first subcategory with that id under its category: its label, or the raw id when that label is empty |
| ProtocolList.TableLabelsResolve | app/page.tsx:137-138 | with the page's tables, every category and subcategory id listed in the tables resolves to the table's label |
| ProtocolList.MockBuckets | components/ProtocolList.tsx:9-43 | the catalog's buckets are adult and pediatric with cardiac and general, and reference with medications and operations |
| ProtocolList.BucketIdsListed | components/ProtocolList.tsx:9-43 | every bucket of the catalog is named by the page's tables: its category is a category button and its subcategory a subcategory button of that category |
| ProtocolList.CatalogIdsListed | components/ProtocolList.tsx:72-82 | every entry of getAllProtocols carries a category id and a subcategory id that the page's tables list |
| ProtocolList.ListedBadges | components/ProtocolList.tsx:109-115 | for ids the page's tables list, both badges show the tables' labels, which differ from the raw ids |
| ProtocolList.ShownBadgesResolve | components/ProtocolList.tsx:103-137 | for every selection the list accepts, every shown entry's two badges show the page's table labels, never the raw ids |
| ProtocolList.Href | components/ProtocolList.tsx:122 | the path is "/protocols/", then the category id, "/", the subcategory id, "/", the protocol id, with the stated length and segment positions; HrefInjective shows it identifies the entry |
| ProtocolList.HrefInjective | components/ProtocolList.tsx:122 | for category and subcategory ids without '/', two entries have the same href exactly when they have the same category id, subcategory id and protocol id |
| ProtocolList.MockProtocolsWellFormed | components/ProtocolList.tsx:9-43 | the catalog's keys are distinct at both levels |
| ProtocolList.AdultBlock | components/ProtocolList.tsx:10-21 | the Adult entries are chest-pain, cardiac-arrest, arrhythmia (cardiac), then airway, trauma, burns (general), each tagged with its ids |
| ProtocolList.PediatricBlock | components/ProtocolList.tsx:22-31 | the Pediatric entries are ped-cardiac-arrest, ped-arrhythmia (cardiac), then ped-airway, ped-seizure (general) |
| ProtocolList.ReferenceBlock | components/ProtocolList.tsx:32-42 | the Reference entries are the three medications, then the two operations protocols |
| ProtocolList.MockAllProtocols | components/ProtocolList.tsx:72-82 | with nothing selected the list is the Adult, Pediatric and Reference entries in that order, 15 in all |
| ProtocolList.ExampleAdultCardiac | components/ProtocolList.tsx:103-107 | selection ("adult", "cardiac") shows exactly chest-pain, cardiac-arrest, arrhythmia, in that order, tagged adult/cardiac |
| Page.Step | app/page.tsx:35-47 | a category click selects that category and clears the subcategory; a subcategory click keeps the category and selects the subcategory, after which the clear button shows exactly when the new subcategory is non-empty or the category is truthy; clearing returns to the mount state, with the clear button hidden |
| Page.ShowClear | app/page.tsx:120 | the clear button is hidden exactly when each selected id is null or the empty string; it is hidden at mount |
| Page.Enabled | app/page.tsx:77-120 | a category button exists exactly for a listed category id; a subcategory button exists exactly when the selected category is truthy, has a subcategory list, and lists that id, and then the clear button is shown too; the clear button exists exactly when ShowClear holds |
| Page.Home.constructor | app/page.tsx:32-33 | the page mounts with nothing selected, a state that satisfies the invariant |
| Page.Home.HandleCategoryClick | app/page.tsx:35-38 | the category becomes the clicked id and the subcategory becomes null, whatever the prior state; a click on a listed category yields a state that satisfies the invariant |
| Page.Home.HandleSubcategoryClick | app/page.tsx:40-42 | the subcategory becomes the clicked id and the category is unchanged; a click on a rendered subcategory button keeps the invariant |
| Page.Home.ClearFilters | app/page.tsx:44-47 | both fields become null, and the clear button is no longer shown |
| Page.HandlerLaws | app/page.tsx:35-47 | a category click resets the subcategory and applying it twice equals applying it once; a subcategory click keeps the category; clearing yields (null, null) and is idempotent |
| Page.StepPreservesInv | app/page.tsx:77-122 | every click on a rendered button keeps the invariant |
| Page.RunPreservesInv | app/page.tsx:77-122 | every sequence of clicks on rendered buttons keeps the invariant |
| Page.ReachableInv | app/page.tsx:94-100 | in every state reachable from mount, a set subcategory implies a set category, and the subcategory is one of the ids listed for that category |
| Page.UngatedSubcategoryClickBreaksInv | app/page.tsx:40-42 | the subcategory handler on its own, with no category selected, breaks the invariant; only the rendering gate keeps it |
| Page.ShowClearUnderInv | app/page.tsx:120 | in a reachable state the clear button is shown exactly when a category is selected, that is, exactly when the state is not the initial one |
| Page.ActiveCategoryLabel | app/page.tsx:49-60 | the header computation throws exactly when the category and subcategory are both truthy and the category is not a key of the subcategory table |
| Page.ActiveLabelCases | app/page.tsx:49-60 | the header is "All Protocols" when the category is null or not listed; the category label when the subcategory is falsy or not listed under it; "category → subcategory" when both are found |
| Page.HeaderUnderInv | app/page.tsx:49-60 | in a reachable state the header never throws: "All Protocols" with nothing selected, the category label with only a category, both labels joined by " → " with both |
| Page.ExampleAdultCardiacHeader | app/page.tsx:49-60 | clicking Adult then Cardiac gives the header "Adult → Cardiac" |
| Page.TablesMatchCatalog | app/page.tsx:16-29 | every listed category is a catalog key, and every subcategory listed for it is a bucket of that category |
| Page.ReachableListIsFilter | app/page.tsx:134-139 | for every reachable selection the list never throws, and it shows the full catalog filtered by the selection |

## Left out

- Rendering: JSX markup, styling classes, the `cn` helper, the ring
  highlight, the Button, Card, Badge and ScrollArea components, and the
  lucide-react icons. Icons and colours are carried as opaque fields.
  Rendering is kept only as the rule that decides which buttons exist
  (`Enabled`, `ShowClear`).
- Navigation: Next.js `Link` and routing. Only the href string is modelled.
- React state scheduling: each handler is one atomic update of both fields.
- Loading protocols from MDX files: the source only mentions it in a
  comment, and the catalog is a constant.
- Inherited object properties: in JavaScript, `mockProtocols["toString"]`
  and similar keys resolve to prototype members. The model's lookups see
  only the declared keys, so such ids count as unknown.
- `Object.entries` order: integer-like keys would be listed first. The model
  keeps declaration order, which is what `Object.entries` gives for the
  catalog's non-numeric keys.
- List keys: that protocol ids (the list's `key`) are distinct across the
  catalog is not proved, although `MockAllProtocols` lists them all.
- ProtocolList.ProtocolsForCategory: a category missing from the catalog
  throws in the source. Here it is a precondition, not an error result.
- ProtocolList.ProtocolsForSubcategory: a missing category or subcategory
  throws in the source. Here it is a precondition, not an error result.
