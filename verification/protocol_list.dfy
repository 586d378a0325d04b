/** The protocol list: a static nested catalog (category id, then
    subcategory id, then an ordered list of protocols), the three projections
    that flatten it and tag every protocol with the ids of its bucket, the
    dispatch that picks one of them from the current selection, the two badge
    label lookups and the link path of an entry. */
module ProtocolList {
  import opened Nullable
  import opened Taxonomy

  /** One protocol document of the catalog. */
  datatype Protocol = Protocol(id: string, title: string)

  /** A protocol as the list shows it: the protocol's own fields spread into
      a record together with the ids of the bucket it was taken from. */
  datatype Entry = Entry(id: string, title: string, categoryId: string, subcategoryId: string)

  /** `Object.entries` of one category's record: subcategory id to its
      protocols, in declaration order. */
  type CategoryProtocols = seq<(string, seq<Protocol>)>

  /** `Object.entries` of the catalog: category id to its record, in
      declaration order. */
  type Catalog = seq<(string, CategoryProtocols)>

  /** The keys of an object literal are distinct. */
  ghost predicate DistinctKeys<V>(entries: seq<(string, V)>) {
    forall i, j | 0 <= i < j < |entries| :: entries[i].0 != entries[j].0
  }

  /** The catalog is a record of records: distinct keys at both levels. */
  ghost predicate WellFormed(catalog: Catalog) {
    DistinctKeys(catalog) && forall i | 0 <= i < |catalog| :: DistinctKeys(catalog[i].1)
  }

  /** The position of the first entry whose key is `key`, if there is one.
      This is key lookup on an object's entries; `Taxonomy.IndexOf` is the
      same first-match scan for `find` on an array of records. The two are
      kept apart because they search different shapes (a key paired with a
      value, a record carrying its own id) and each module's lemmas are
      stated over its own shape. */
  function KeyIndex<V>(entries: seq<(string, V)>, key: string): (r: Option<nat>)
    ensures r.Some? ==> r.value < |entries| && entries[r.value].0 == key
    ensures r.Some? ==> forall j | 0 <= j < r.value :: entries[j].0 != key
    ensures r.None? ==> forall j | 0 <= j < |entries| :: entries[j].0 != key
  {
    if |entries| == 0 then None
    else if entries[0].0 == key then Some(0)
    else match KeyIndex(entries[1..], key)
      case None =>
        assert forall j | 1 <= j < |entries| :: entries[j] == entries[1..][j - 1];
        None
      case Some(i) => Some(i + 1)
  }

  /** `key in obj` for the declared keys of an object literal. */
  predicate HasKey<V>(entries: seq<(string, V)>, key: string) {
    KeyIndex(entries, key).Some?
  }

  /** `obj[key]` for a key the object has. */
  function Get<V>(entries: seq<(string, V)>, key: string): V
    requires HasKey(entries, key)
  {
    entries[KeyIndex(entries, key).value].1
  }

  /** The catalog has a bucket for (categoryId, subcategoryId). */
  predicate HasBucket(catalog: Catalog, categoryId: string, subcategoryId: string) {
    HasKey(catalog, categoryId) && HasKey(Get(catalog, categoryId), subcategoryId)
  }

  /** `protocols.map(p => ({...p, categoryId, subcategoryId}))`. */
  function Tag(protocols: seq<Protocol>, categoryId: string, subcategoryId: string): (r: seq<Entry>)
    ensures |r| == |protocols|
    ensures forall i | 0 <= i < |r| ::
      r[i] == Entry(protocols[i].id, protocols[i].title, categoryId, subcategoryId)
  {
    if |protocols| == 0 then []
    else [Entry(protocols[0].id, protocols[0].title, categoryId, subcategoryId)]
         + Tag(protocols[1..], categoryId, subcategoryId)
  }

  /** The number of protocols in all buckets of one category. */
  function BucketCount(shelf: CategoryProtocols): nat {
    if |shelf| == 0 then 0 else |shelf[0].1| + BucketCount(shelf[1..])
  }

  /** The number of protocols in the whole catalog. */
  function TotalCount(catalog: Catalog): nat {
    if |catalog| == 0 then 0 else BucketCount(catalog[0].1) + TotalCount(catalog[1..])
  }

  /** The inner `flatMap` shared by getAllProtocols and
      getProtocolsForCategory: every bucket of one category, tagged, in
      declaration order. */
  function CategoryBlock(categoryId: string, shelf: CategoryProtocols): (r: seq<Entry>)
    ensures |r| == BucketCount(shelf)
    ensures forall e | e in r :: e.categoryId == categoryId
  {
    if |shelf| == 0 then []
    else Tag(shelf[0].1, categoryId, shelf[0].0) + CategoryBlock(categoryId, shelf[1..])
  }

  /** getAllProtocols: every bucket of every category, tagged. */
  function AllProtocols(catalog: Catalog): (r: seq<Entry>)
    ensures |r| == TotalCount(catalog)
  {
    if |catalog| == 0 then []
    else CategoryBlock(catalog[0].0, catalog[0].1) + AllProtocols(catalog[1..])
  }

  /** getProtocolsForCategory; the source throws for an unknown category. */
  function ProtocolsForCategory(catalog: Catalog, categoryId: string): (r: seq<Entry>)
    requires HasKey(catalog, categoryId)
    ensures |r| == BucketCount(Get(catalog, categoryId))
    ensures forall e | e in r :: e.categoryId == categoryId
  {
    CategoryBlock(categoryId, Get(catalog, categoryId))
  }

  /** getProtocolsForSubcategory; the source throws for an unknown category
      or subcategory. */
  function ProtocolsForSubcategory(catalog: Catalog, categoryId: string, subcategoryId: string): (r: seq<Entry>)
    requires HasBucket(catalog, categoryId, subcategoryId)
    ensures var bucket: seq<Protocol> := Get(Get(catalog, categoryId), subcategoryId);
      |r| == |bucket| &&
      forall i | 0 <= i < |r| :: r[i] == Entry(bucket[i].id, bucket[i].title, categoryId, subcategoryId)
  {
    Tag(Get(Get(catalog, categoryId), subcategoryId), categoryId, subcategoryId)
  }

  /** The dispatch reaches no throwing lookup. */
  predicate DispatchOk(catalog: Catalog, category: Option<string>, subcategory: Option<string>) {
    Truthy(category) ==>
      HasKey(catalog, category.value) &&
      (Truthy(subcategory) ==> HasBucket(catalog, category.value, subcategory.value))
  }

  /** The `protocols` shown for a selection: by subcategory, by category, or
      all, chosen by the truthiness of the two selected ids. */
  function Protocols(catalog: Catalog, category: Option<string>, subcategory: Option<string>): (r: seq<Entry>)
    requires DispatchOk(catalog, category, subcategory)
    ensures Truthy(category) ==> forall e | e in r :: e.categoryId == category.value
    ensures Truthy(category) && Truthy(subcategory) ==>
      forall e | e in r :: e.subcategoryId == subcategory.value
  {
    if Truthy(category) then
      if Truthy(subcategory) then ProtocolsForSubcategory(catalog, category.value, subcategory.value)
      else ProtocolsForCategory(catalog, category.value)
    else AllProtocols(catalog)
  }

  /** getCategoryLabel: the label of the first category with that id, or the
      id itself when there is none or its label is empty. */
  function CategoryLabel(categories: seq<Category>, categoryId: string): (r: string)
    ensures !Listed(categories, categoryId) ==> r == categoryId
    ensures r == categoryId || (r != "" && exists c | c in categories :: c.id == categoryId && c.caption == r)
    ensures categoryId != "" ==> r != ""
  {
    match Find(categories, categoryId)
    case Some(c) => if c.caption != "" then c.caption else categoryId
    case None => categoryId
  }

  /** getSubcategoryLabel: the label of the first subcategory with that id
      under that category, or the subcategory id itself when the category has
      no list, the id is not in it, or its label is empty. */
  function SubcategoryLabel(subcategories: map<string, seq<Subcategory>>, categoryId: string,
                            subcategoryId: string): (r: string)
    ensures categoryId !in subcategories ==> r == subcategoryId
    ensures categoryId in subcategories && !Listed(subcategories[categoryId], subcategoryId) ==>
      r == subcategoryId
    ensures r == subcategoryId ||
      (r != "" && categoryId in subcategories &&
       exists s | s in subcategories[categoryId] :: s.id == subcategoryId && s.caption == r)
    ensures subcategoryId != "" ==> r != ""
  {
    if categoryId !in subcategories then subcategoryId
    else match Find(subcategories[categoryId], subcategoryId)
      case Some(s) => if s.caption != "" then s.caption else subcategoryId
      case None => subcategoryId
  }

  /** A category's badge is decided by the first category with its id: that
      category's label, or the raw id when that label is empty. */
  lemma CategoryLabelOfListed(categories: seq<Category>, i: nat)
    requires i < |categories|
    requires forall j | 0 <= j < i :: categories[j].id != categories[i].id
    ensures CategoryLabel(categories, categories[i].id) ==
      if categories[i].caption != "" then categories[i].caption else categories[i].id
  {
    FindIsFirst(categories, i);
  }

  /** A subcategory's badge is decided by the first subcategory with its id
      under its category: that subcategory's label, or the raw id when that
      label is empty. */
  lemma SubcategoryLabelOfListed(subcategories: map<string, seq<Subcategory>>, categoryId: string, i: nat)
    requires categoryId in subcategories && i < |subcategories[categoryId]|
    requires forall j | 0 <= j < i :: subcategories[categoryId][j].id != subcategories[categoryId][i].id
    ensures var s := subcategories[categoryId][i];
      SubcategoryLabel(subcategories, categoryId, s.id) == if s.caption != "" then s.caption else s.id
  {
    FindIsFirst(subcategories[categoryId], i);
  }

  /** On the page's tables every id listed there resolves to the table's
      label, never to the raw id. */
  lemma TableLabelsResolve()
    ensures forall i | 0 <= i < |Categories| :: CategoryLabel(Categories, Categories[i].id) == Categories[i].caption
    ensures forall c, i | c in Subcategories && 0 <= i < |Subcategories[c]| ::
      SubcategoryLabel(Subcategories, c, Subcategories[c][i].id) == Subcategories[c][i].caption
  {
    TablesWellFormed();
    forall i | 0 <= i < |Categories|
      ensures CategoryLabel(Categories, Categories[i].id) == Categories[i].caption
    {
      CategoryLabelOfListed(Categories, i);
    }
    forall c, i | c in Subcategories && 0 <= i < |Subcategories[c]|
      ensures SubcategoryLabel(Subcategories, c, Subcategories[c][i].id) == Subcategories[c][i].caption
    {
      SubcategoryLabelOfListed(Subcategories, c, i);
    }
  }

  /** The link target of an entry: the fixed prefix, then the category id,
      the subcategory id and the protocol id separated by slashes. */
  function Href(e: Entry): (r: string)
    ensures |r| == |"/protocols/"| + |e.categoryId| + 1 + |e.subcategoryId| + 1 + |e.id|
    ensures r[..11] == "/protocols/"
    ensures r[11..11 + |e.categoryId|] == e.categoryId && r[11 + |e.categoryId|] == '/'
    ensures r[|r| - |e.id|..] == e.id && r[|r| - |e.id| - 1] == '/'
  {
    "/protocols/" + e.categoryId + "/" + e.subcategoryId + "/" + e.id
  }

  /** The catalog the list shows, in declaration order. */
  const MockProtocols: Catalog := [
    ("adult", AdultProtocols),
    ("pediatric", PediatricProtocols),
    ("reference", ReferenceProtocols)
  ]

  const AdultProtocols: CategoryProtocols := [
    ("cardiac", [
      Protocol("chest-pain", "Chest Pain"),
      Protocol("cardiac-arrest", "Cardiac Arrest"),
      Protocol("arrhythmia", "Arrhythmia Management")
    ]),
    ("general", [
      Protocol("airway", "Airway Management"),
      Protocol("trauma", "Trauma Assessment"),
      Protocol("burns", "Burns")
    ])
  ]

  const PediatricProtocols: CategoryProtocols := [
    ("cardiac", [
      Protocol("ped-cardiac-arrest", "Pediatric Cardiac Arrest"),
      Protocol("ped-arrhythmia", "Pediatric Arrhythmia")
    ]),
    ("general", [
      Protocol("ped-airway", "Pediatric Airway"),
      Protocol("ped-seizure", "Pediatric Seizure")
    ])
  ]

  const ReferenceProtocols: CategoryProtocols := [
    ("medications", [
      Protocol("med-adenosine", "Adenosine"),
      Protocol("med-epinephrine", "Epinephrine"),
      Protocol("med-amiodarone", "Amiodarone")
    ]),
    ("operations", [
      Protocol("ops-communication", "Communication"),
      Protocol("ops-documentation", "Documentation")
    ])
  ]

  // ----- Reference definition: the projections as filters of the full list -----

  /** Which of an entry's two tags a filter compares. */
  datatype Key = CategoryKey | SubcategoryKey

  function KeyOf(e: Entry, k: Key): string {
    match k
    case CategoryKey => e.categoryId
    case SubcategoryKey => e.subcategoryId
  }

  /** The entries whose tag `k` is `value`, in their original order. */
  function Where(entries: seq<Entry>, k: Key, value: string): (r: seq<Entry>)
    ensures |r| <= |entries|
    ensures forall e | e in r :: KeyOf(e, k) == value
  {
    if |entries| == 0 then []
    else (if KeyOf(entries[0], k) == value then [entries[0]] else []) + Where(entries[1..], k, value)
  }

  /** The list a selection should show, stated as a filter of the full list:
      a falsy category keeps everything, whatever the subcategory. */
  function Selected(entries: seq<Entry>, category: Option<string>, subcategory: Option<string>): seq<Entry> {
    if !Truthy(category) then entries
    else if !Truthy(subcategory) then Where(entries, CategoryKey, category.value)
    else Where(Where(entries, CategoryKey, category.value), SubcategoryKey, subcategory.value)
  }

  /** An entry survives a filter exactly when it was there and its tag matches. */
  lemma {:induction false} WhereMember(entries: seq<Entry>, k: Key, value: string, e: Entry)
    ensures e in Where(entries, k, value) <==> e in entries && KeyOf(e, k) == value
  {
    if |entries| > 0 {
      WhereMember(entries[1..], k, value, e);
      assert entries == [entries[0]] + entries[1..];
    }
  }

  /** Filtering distributes over concatenation. */
  lemma {:induction false} WhereConcat(a: seq<Entry>, b: seq<Entry>, k: Key, value: string)
    ensures Where(a + b, k, value) == Where(a, k, value) + Where(b, k, value)
  {
    if |a| == 0 {
      assert a + b == b;
    } else {
      assert (a + b)[1..] == a[1..] + b;
      WhereConcat(a[1..], b, k, value);
    }
  }

  /** A filter that every entry passes keeps the list unchanged. */
  lemma {:induction false} WhereAll(entries: seq<Entry>, k: Key, value: string)
    requires forall e | e in entries :: KeyOf(e, k) == value
    ensures Where(entries, k, value) == entries
  {
    if |entries| > 0 {
      assert entries[0] in entries;
      assert forall e | e in entries[1..] :: e in entries;
      WhereAll(entries[1..], k, value);
      assert entries == [entries[0]] + entries[1..];
    }
  }

  /** A filter that no entry passes yields the empty list. */
  lemma {:induction false} WhereNone(entries: seq<Entry>, k: Key, value: string)
    requires forall e | e in entries :: KeyOf(e, k) != value
    ensures Where(entries, k, value) == []
  {
    if |entries| > 0 {
      assert entries[0] in entries;
      assert forall e | e in entries[1..] :: e in entries;
      WhereNone(entries[1..], k, value);
    }
  }

  /** Dropping the first entry keeps keys distinct. */
  lemma DistinctKeysTail<V>(entries: seq<(string, V)>)
    requires |entries| > 0 && DistinctKeys(entries)
    ensures DistinctKeys(entries[1..])
    ensures forall j | 0 <= j < |entries[1..]| :: entries[1..][j].0 != entries[0].0
  {
    assert forall j | 0 <= j < |entries[1..]| :: entries[1..][j] == entries[j + 1];
  }

  /** Looking a key up past a non-matching first entry is looking it up in the rest. */
  lemma KeyIndexTail<V>(entries: seq<(string, V)>, key: string)
    requires |entries| > 0 && entries[0].0 != key
    ensures HasKey(entries, key) == HasKey(entries[1..], key)
    ensures HasKey(entries, key) ==>
      KeyIndex(entries, key).value == KeyIndex(entries[1..], key).value + 1 &&
      Get(entries, key) == Get(entries[1..], key)
  {
  }

  /** With distinct keys, looking up an entry's key finds that entry. */
  lemma KeyIndexDistinct<V>(entries: seq<(string, V)>, i: nat)
    requires i < |entries| && DistinctKeys(entries)
    ensures KeyIndex(entries, entries[i].0) == Some(i)
  {
  }

  /** getProtocolsForCategory(c) is the full list filtered by category c; a
      category the catalog lacks would filter to nothing. */
  lemma {:induction false} ProtocolsForCategoryIsFilter(catalog: Catalog, categoryId: string)
    requires WellFormed(catalog)
    ensures Where(AllProtocols(catalog), CategoryKey, categoryId) ==
      if HasKey(catalog, categoryId) then ProtocolsForCategory(catalog, categoryId) else []
  {
    if |catalog| > 0 {
      var rest := catalog[1..];
      DistinctKeysTail(catalog);
      assert forall j | 0 <= j < |rest| :: rest[j] == catalog[j + 1];
      assert WellFormed(rest);
      var block := CategoryBlock(catalog[0].0, catalog[0].1);
      WhereConcat(block, AllProtocols(rest), CategoryKey, categoryId);
      ProtocolsForCategoryIsFilter(rest, categoryId);
      if catalog[0].0 == categoryId {
        WhereAll(block, CategoryKey, categoryId);
        assert !HasKey(rest, categoryId);
      } else {
        WhereNone(block, CategoryKey, categoryId);
        KeyIndexTail(catalog, categoryId);
      }
    }
  }

  /** Within one category, the bucket of subcategory s is the category's
      entries filtered by subcategory s. */
  lemma {:induction false} BucketIsFilter(categoryId: string, shelf: CategoryProtocols, subcategoryId: string)
    requires DistinctKeys(shelf)
    ensures Where(CategoryBlock(categoryId, shelf), SubcategoryKey, subcategoryId) ==
      if HasKey(shelf, subcategoryId) then Tag(Get(shelf, subcategoryId), categoryId, subcategoryId) else []
  {
    if |shelf| > 0 {
      var rest := shelf[1..];
      DistinctKeysTail(shelf);
      var tagged := Tag(shelf[0].1, categoryId, shelf[0].0);
      WhereConcat(tagged, CategoryBlock(categoryId, rest), SubcategoryKey, subcategoryId);
      BucketIsFilter(categoryId, rest, subcategoryId);
      if shelf[0].0 == subcategoryId {
        WhereAll(tagged, SubcategoryKey, subcategoryId);
        assert !HasKey(rest, subcategoryId);
      } else {
        WhereNone(tagged, SubcategoryKey, subcategoryId);
        KeyIndexTail(shelf, subcategoryId);
      }
    }
  }

  /** getProtocolsForSubcategory(c, s) is getProtocolsForCategory(c)
      filtered by subcategory s. */
  lemma ProtocolsForSubcategoryIsFilter(catalog: Catalog, categoryId: string, subcategoryId: string)
    requires WellFormed(catalog) && HasKey(catalog, categoryId)
    ensures Where(ProtocolsForCategory(catalog, categoryId), SubcategoryKey, subcategoryId) ==
      if HasBucket(catalog, categoryId, subcategoryId)
      then ProtocolsForSubcategory(catalog, categoryId, subcategoryId) else []
  {
    BucketIsFilter(categoryId, Get(catalog, categoryId), subcategoryId);
  }

  /** The dispatch shows exactly the full list filtered by the selection:
      everything when the category is falsy (even with a subcategory set),
      the category's entries when only the category is set, and the one
      bucket when both are set. */
  lemma DispatchIsFilter(catalog: Catalog, category: Option<string>, subcategory: Option<string>)
    requires WellFormed(catalog) && DispatchOk(catalog, category, subcategory)
    ensures Protocols(catalog, category, subcategory) == Selected(AllProtocols(catalog), category, subcategory)
  {
    if Truthy(category) {
      ProtocolsForCategoryIsFilter(catalog, category.value);
      if Truthy(subcategory) {
        ProtocolsForSubcategoryIsFilter(catalog, category.value, subcategory.value);
      }
    }
  }

  /** A tagged entry comes from the bucket exactly when its fields match a protocol there. */
  lemma TagMember(protocols: seq<Protocol>, categoryId: string, subcategoryId: string, e: Entry)
    requires e.categoryId == categoryId && e.subcategoryId == subcategoryId
    ensures e in Tag(protocols, categoryId, subcategoryId) <==> Protocol(e.id, e.title) in protocols
  {
    var r := Tag(protocols, categoryId, subcategoryId);
    if e in r {
      var i :| 0 <= i < |r| && r[i] == e;
      assert protocols[i] == Protocol(e.id, e.title);
    }
    if Protocol(e.id, e.title) in protocols {
      var i :| 0 <= i < |protocols| && protocols[i] == Protocol(e.id, e.title);
      assert r[i] == e;
    }
  }

  /** An entry is in getAllProtocols exactly when the catalog has its
      (categoryId, subcategoryId) bucket and that bucket holds a protocol with
      its id and title. */
  lemma AllProtocolsMembers(catalog: Catalog, e: Entry)
    requires WellFormed(catalog)
    ensures e in AllProtocols(catalog) <==>
      HasBucket(catalog, e.categoryId, e.subcategoryId) &&
      Protocol(e.id, e.title) in Get(Get(catalog, e.categoryId), e.subcategoryId)
  {
    var all := AllProtocols(catalog);
    WhereMember(all, CategoryKey, e.categoryId, e);
    ProtocolsForCategoryIsFilter(catalog, e.categoryId);
    if HasKey(catalog, e.categoryId) {
      var byCategory := ProtocolsForCategory(catalog, e.categoryId);
      WhereMember(byCategory, SubcategoryKey, e.subcategoryId, e);
      ProtocolsForSubcategoryIsFilter(catalog, e.categoryId, e.subcategoryId);
      if HasBucket(catalog, e.categoryId, e.subcategoryId) {
        TagMember(Get(Get(catalog, e.categoryId), e.subcategoryId), e.categoryId, e.subcategoryId, e);
      }
    }
  }

  // ----- Contiguity -----

  /** getAllProtocols of two catalogs laid end to end is the two lists laid end to end. */
  lemma {:induction false} AllProtocolsAppend(a: Catalog, b: Catalog)
    ensures AllProtocols(a + b) == AllProtocols(a) + AllProtocols(b)
  {
    if |a| == 0 {
      assert a + b == b;
    } else {
      assert (a + b)[1..] == a[1..] + b;
      AllProtocolsAppend(a[1..], b);
    }
  }

  /** The entries of category c are one contiguous run of getAllProtocols,
      between the categories declared before it and those declared after. */
  lemma CategoryContiguous(catalog: Catalog, categoryId: string)
    requires HasKey(catalog, categoryId)
    ensures var i := KeyIndex(catalog, categoryId).value;
      AllProtocols(catalog) ==
        AllProtocols(catalog[..i]) + ProtocolsForCategory(catalog, categoryId) + AllProtocols(catalog[i + 1..])
  {
    var i := KeyIndex(catalog, categoryId).value;
    assert catalog == catalog[..i] + [catalog[i]] + catalog[i + 1..];
    AllProtocolsAppend(catalog[..i] + [catalog[i]], catalog[i + 1..]);
    AllProtocolsAppend(catalog[..i], [catalog[i]]);
    assert AllProtocols([catalog[i]]) == ProtocolsForCategory(catalog, categoryId);
  }

  /** The same run as a slice: getProtocolsForCategory(c) sits in
      getAllProtocols right after the protocols of the earlier categories. */
  lemma CategorySlice(catalog: Catalog, categoryId: string)
    requires HasKey(catalog, categoryId)
    ensures var lo := TotalCount(catalog[..KeyIndex(catalog, categoryId).value]);
      var block := ProtocolsForCategory(catalog, categoryId);
      lo + |block| <= |AllProtocols(catalog)| && AllProtocols(catalog)[lo..lo + |block|] == block
  {
    CategoryContiguous(catalog, categoryId);
  }

  /** The tagged buckets of two shelves laid end to end are the two lists laid end to end. */
  lemma {:induction false} CategoryBlockAppend(categoryId: string, a: CategoryProtocols, b: CategoryProtocols)
    ensures CategoryBlock(categoryId, a + b) == CategoryBlock(categoryId, a) + CategoryBlock(categoryId, b)
  {
    if |a| == 0 {
      assert a + b == b;
    } else {
      assert (a + b)[1..] == a[1..] + b;
      CategoryBlockAppend(categoryId, a[1..], b);
    }
  }

  /** The bucket of subcategory s is one contiguous run of its category's
      entries, between the buckets declared before it and after it. */
  lemma BucketContiguous(categoryId: string, shelf: CategoryProtocols, subcategoryId: string)
    requires HasKey(shelf, subcategoryId)
    ensures var j := KeyIndex(shelf, subcategoryId).value;
      CategoryBlock(categoryId, shelf) ==
        CategoryBlock(categoryId, shelf[..j]) + Tag(Get(shelf, subcategoryId), categoryId, subcategoryId)
        + CategoryBlock(categoryId, shelf[j + 1..])
  {
    var j := KeyIndex(shelf, subcategoryId).value;
    assert shelf == shelf[..j] + [shelf[j]] + shelf[j + 1..];
    CategoryBlockAppend(categoryId, shelf[..j] + [shelf[j]], shelf[j + 1..]);
    CategoryBlockAppend(categoryId, shelf[..j], [shelf[j]]);
    assert CategoryBlock(categoryId, [shelf[j]]) == Tag(Get(shelf, subcategoryId), categoryId, subcategoryId);
  }

  /** getProtocolsForSubcategory(c, s) is a contiguous slice of
      getProtocolsForCategory(c), right after the earlier buckets of c. */
  lemma SubcategorySlice(catalog: Catalog, categoryId: string, subcategoryId: string)
    requires HasBucket(catalog, categoryId, subcategoryId)
    ensures var shelf := Get(catalog, categoryId);
      var lo := BucketCount(shelf[..KeyIndex(shelf, subcategoryId).value]);
      var bucket := ProtocolsForSubcategory(catalog, categoryId, subcategoryId);
      var block := ProtocolsForCategory(catalog, categoryId);
      lo + |bucket| <= |block| && block[lo..lo + |bucket|] == bucket
  {
    BucketContiguous(categoryId, Get(catalog, categoryId), subcategoryId);
  }

  // ----- Link paths -----

  /** The first slash of `x + "/" + u` is the one after `x` when `x` has none. */
  lemma FirstSlash(x: string, u: string)
    requires '/' !in x
    ensures var w := x + "/" + u;
      |x| < |w| && w[|x|] == '/' && w[..|x|] == x && w[|x| + 1..] == u &&
      forall k | 0 <= k < |x| :: w[k] != '/'
  {
    var w := x + "/" + u;
    forall k | 0 <= k < |x| ensures w[k] != '/' {
      assert w[k] == x[k];
    }
  }

  /** A slash-free segment followed by a slash can be split off uniquely. */
  lemma SplitAtSlash(x: string, u: string, y: string, v: string)
    requires '/' !in x && '/' !in y
    ensures x + "/" + u == y + "/" + v <==> x == y && u == v
  {
    FirstSlash(x, u);
    FirstSlash(y, v);
    if x + "/" + u == y + "/" + v {
      assert |x| == |y|;
    }
  }

  /** Link paths identify entries: two entries whose category and
      subcategory ids contain no slash have the same href exactly when they
      have the same category id, subcategory id and protocol id. */
  lemma HrefInjective(e1: Entry, e2: Entry)
    requires '/' !in e1.categoryId && '/' !in e1.subcategoryId
    requires '/' !in e2.categoryId && '/' !in e2.subcategoryId
    ensures Href(e1) == Href(e2) <==>
      e1.categoryId == e2.categoryId && e1.subcategoryId == e2.subcategoryId && e1.id == e2.id
  {
    var prefix := "/protocols/";
    var t1 := e1.categoryId + "/" + (e1.subcategoryId + "/" + e1.id);
    var t2 := e2.categoryId + "/" + (e2.subcategoryId + "/" + e2.id);
    assert Href(e1) == prefix + t1;
    assert Href(e2) == prefix + t2;
    assert (prefix + t1)[|prefix|..] == t1;
    assert (prefix + t2)[|prefix|..] == t2;
    SplitAtSlash(e1.categoryId, e1.subcategoryId + "/" + e1.id, e2.categoryId, e2.subcategoryId + "/" + e2.id);
    SplitAtSlash(e1.subcategoryId, e1.id, e2.subcategoryId, e2.id);
  }

  // ----- The shown catalog -----

  /** The shown catalog is a record of records. */
  lemma MockProtocolsWellFormed()
    ensures WellFormed(MockProtocols)
  {
    assert DistinctKeys(AdultProtocols) && DistinctKeys(PediatricProtocols) && DistinctKeys(ReferenceProtocols);
    assert DistinctKeys(MockProtocols);
    forall i | 0 <= i < |MockProtocols| ensures DistinctKeys(MockProtocols[i].1) {
      assert i == 0 || i == 1 || i == 2;
    }
  }

  /** getAllProtocols of a three-category catalog, one unfolding at a time. */
  lemma AllProtocolsOfThree(catalog: Catalog)
    requires |catalog| == 3
    ensures AllProtocols(catalog) ==
      CategoryBlock(catalog[0].0, catalog[0].1) + CategoryBlock(catalog[1].0, catalog[1].1)
      + CategoryBlock(catalog[2].0, catalog[2].1)
  {
    var tail := catalog[1..];
    assert tail[0] == catalog[1] && tail[1..][0] == catalog[2] && tail[1..][1..] == [];
    assert AllProtocols(tail[1..]) == CategoryBlock(catalog[2].0, catalog[2].1);
    assert AllProtocols(tail) == CategoryBlock(catalog[1].0, catalog[1].1) + AllProtocols(tail[1..]);
  }

  /** The tagged buckets of a two-subcategory shelf. */
  lemma CategoryBlockOfTwo(categoryId: string, shelf: CategoryProtocols)
    requires |shelf| == 2
    ensures CategoryBlock(categoryId, shelf) ==
      Tag(shelf[0].1, categoryId, shelf[0].0) + Tag(shelf[1].1, categoryId, shelf[1].0)
  {
    var tail := shelf[1..];
    assert tail[0] == shelf[1] && tail[1..] == [];
    assert CategoryBlock(categoryId, tail) == Tag(shelf[1].1, categoryId, shelf[1].0);
  }

  /** The tagged Adult protocols, Cardiac bucket first. */
  lemma AdultBlock()
    ensures CategoryBlock("adult", AdultProtocols) ==
      [Entry("chest-pain", "Chest Pain", "adult", "cardiac"),
       Entry("cardiac-arrest", "Cardiac Arrest", "adult", "cardiac"),
       Entry("arrhythmia", "Arrhythmia Management", "adult", "cardiac")] +
      [Entry("airway", "Airway Management", "adult", "general"),
       Entry("trauma", "Trauma Assessment", "adult", "general"),
       Entry("burns", "Burns", "adult", "general")]
  {
    CategoryBlockOfTwo("adult", AdultProtocols);
  }

  /** The tagged Pediatric protocols, Cardiac bucket first. */
  lemma PediatricBlock()
    ensures CategoryBlock("pediatric", PediatricProtocols) ==
      [Entry("ped-cardiac-arrest", "Pediatric Cardiac Arrest", "pediatric", "cardiac"),
       Entry("ped-arrhythmia", "Pediatric Arrhythmia", "pediatric", "cardiac")] +
      [Entry("ped-airway", "Pediatric Airway", "pediatric", "general"),
       Entry("ped-seizure", "Pediatric Seizure", "pediatric", "general")]
  {
    CategoryBlockOfTwo("pediatric", PediatricProtocols);
  }

  /** The tagged Reference protocols, Medications bucket first. */
  lemma ReferenceBlock()
    ensures CategoryBlock("reference", ReferenceProtocols) ==
      [Entry("med-adenosine", "Adenosine", "reference", "medications"),
       Entry("med-epinephrine", "Epinephrine", "reference", "medications"),
       Entry("med-amiodarone", "Amiodarone", "reference", "medications")] +
      [Entry("ops-communication", "Communication", "reference", "operations"),
       Entry("ops-documentation", "Documentation", "reference", "operations")]
  {
    CategoryBlockOfTwo("reference", ReferenceProtocols);
  }

  /** With nothing selected the list holds all 15 protocols, category by
      category, subcategory by subcategory, in declaration order, each tagged
      with its owning ids. */
  lemma MockAllProtocols()
    ensures AllProtocols(MockProtocols) ==
      CategoryBlock("adult", AdultProtocols) + CategoryBlock("pediatric", PediatricProtocols)
      + CategoryBlock("reference", ReferenceProtocols)
    ensures |AllProtocols(MockProtocols)| == 15
  {
    AllProtocolsOfThree(MockProtocols);
    AdultBlock();
    PediatricBlock();
    ReferenceBlock();
  }

  /** Selecting Adult, then Cardiac, shows exactly its three protocols, in
      declaration order. */
  lemma ExampleAdultCardiac()
    ensures Protocols(MockProtocols, Some("adult"), Some("cardiac")) == [
      Entry("chest-pain", "Chest Pain", "adult", "cardiac"),
      Entry("cardiac-arrest", "Cardiac Arrest", "adult", "cardiac"),
      Entry("arrhythmia", "Arrhythmia Management", "adult", "cardiac")
    ]
  {
  }

  /** The buckets of the shown catalog, by key. */
  lemma MockBuckets(categoryId: string, subcategoryId: string)
    requires HasBucket(MockProtocols, categoryId, subcategoryId)
    ensures categoryId == "adult" || categoryId == "pediatric" || categoryId == "reference"
    ensures categoryId != "reference" ==> subcategoryId == "cardiac" || subcategoryId == "general"
    ensures categoryId == "reference" ==> subcategoryId == "medications" || subcategoryId == "operations"
  {
    var k := KeyIndex(MockProtocols, categoryId).value;
    var shelf := MockProtocols[k].1;
    assert k == 0 || k == 1 || k == 2;
    var b := KeyIndex(shelf, subcategoryId).value;
    assert b == 0 || b == 1;
  }

  /** Every bucket of the shown catalog is named by the page's tables: its
      category is a category button, and its subcategory is a subcategory
      button of that category. */
  lemma BucketIdsListed(categoryId: string, subcategoryId: string)
    requires HasBucket(MockProtocols, categoryId, subcategoryId)
    ensures Listed(Categories, categoryId)
    ensures categoryId in Subcategories && Listed(Subcategories[categoryId], subcategoryId)
  {
    MockBuckets(categoryId, subcategoryId);
    var k := if categoryId == "adult" then 0 else if categoryId == "pediatric" then 1 else 2;
    assert Categories[k].id == categoryId;
    var row := Subcategories[categoryId];
    if categoryId == "reference" {
      assert row[0].id == "medications" && row[1].id == "operations";
    } else {
      assert row[0].id == "cardiac" && row[1].id == "general";
    }
    var b := if subcategoryId == row[0].id then 0 else 1;
    assert row[b].id == subcategoryId;
  }

  /** Every entry of the full list carries ids the page's tables list. */
  lemma CatalogIdsListed(e: Entry)
    requires e in AllProtocols(MockProtocols)
    ensures Listed(Categories, e.categoryId)
    ensures e.categoryId in Subcategories && Listed(Subcategories[e.categoryId], e.subcategoryId)
  {
    MockProtocolsWellFormed();
    AllProtocolsMembers(MockProtocols, e);
    BucketIdsListed(e.categoryId, e.subcategoryId);
  }

  /** An id pair the page's tables list gets badges that show the tables'
      labels, never the raw ids. */
  lemma ListedBadges(categoryId: string, subcategoryId: string)
    requires Listed(Categories, categoryId)
    requires categoryId in Subcategories && Listed(Subcategories[categoryId], subcategoryId)
    ensures CategoryLabel(Categories, categoryId) == Find(Categories, categoryId).value.caption != categoryId
    ensures SubcategoryLabel(Subcategories, categoryId, subcategoryId) ==
      Find(Subcategories[categoryId], subcategoryId).value.caption != subcategoryId
  {
    TablesWellFormed();
    var c := IndexOf(Categories, categoryId).value;
    var s := IndexOf(Subcategories[categoryId], subcategoryId).value;
    assert Categories[c].caption != Categories[c].id;
    assert Subcategories[categoryId][s].caption != Subcategories[categoryId][s].id;
  }

  /** The badges of every entry the list shows, whatever the selection,
      resolve to the labels of the page's tables and never to the raw ids. */
  lemma ShownBadgesResolve(category: Option<string>, subcategory: Option<string>)
    requires DispatchOk(MockProtocols, category, subcategory)
    ensures forall e | e in Protocols(MockProtocols, category, subcategory) ::
      Find(Categories, e.categoryId).Some? &&
      CategoryLabel(Categories, e.categoryId) == Find(Categories, e.categoryId).value.caption != e.categoryId
    ensures forall e | e in Protocols(MockProtocols, category, subcategory) ::
      e.categoryId in Subcategories && Find(Subcategories[e.categoryId], e.subcategoryId).Some? &&
      SubcategoryLabel(Subcategories, e.categoryId, e.subcategoryId) ==
        Find(Subcategories[e.categoryId], e.subcategoryId).value.caption != e.subcategoryId
  {
    var all := AllProtocols(MockProtocols);
    MockProtocolsWellFormed();
    DispatchIsFilter(MockProtocols, category, subcategory);
    forall e | e in Protocols(MockProtocols, category, subcategory)
      ensures Find(Categories, e.categoryId).Some?
      ensures CategoryLabel(Categories, e.categoryId) == Find(Categories, e.categoryId).value.caption != e.categoryId
      ensures e.categoryId in Subcategories && Find(Subcategories[e.categoryId], e.subcategoryId).Some?
      ensures SubcategoryLabel(Subcategories, e.categoryId, e.subcategoryId) ==
        Find(Subcategories[e.categoryId], e.subcategoryId).value.caption != e.subcategoryId
    {
      if Truthy(category) {
        WhereMember(all, CategoryKey, category.value, e);
        if Truthy(subcategory) {
          WhereMember(Where(all, CategoryKey, category.value), SubcategoryKey, subcategory.value, e);
        }
      }
      assert e in all;
      CatalogIdsListed(e);
      ListedBadges(e.categoryId, e.subcategoryId);
    }
  }
}
