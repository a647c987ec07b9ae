/** Validation of the departments catalog (router/catalog_loader.py), over an already
    parsed JSON value. */
module CatalogLoader {
  import opened Opt
  import opened Models

  /** The parsed catalog file: a list of department objects, one object, or any other
      JSON value. */
  datatype Payload = PayloadList(items: seq<CatalogEntry>) | PayloadObject(entry: CatalogEntry) | PayloadOther

  const NotAnObject := "Catalog payload must be an object or list of objects"
  const IdRequired := "department_id is required for each department"
  const DefaultVersion := "dev"

  function DuplicateId(id: string): string { "department_id must be unique: " + id }
  function KeywordsMissing(id: string): string { "routing_keywords missing for " + id }
  function RulesMissing(id: string): string { "triage_rules missing for " + id }

  /** `_ensure_list`: a list as it is, an object as a one-element list, anything else an error. */
  function EnsureList(payload: Payload): (r: Result<seq<CatalogEntry>>)
    ensures r.Failure? <==> payload.PayloadOther?
    ensures r.Failure? ==> r.error == NotAnObject
    ensures payload.PayloadList? ==> r == Success(payload.items)
    ensures payload.PayloadObject? ==> r == Success([payload.entry])
  {
    match payload
    case PayloadList(items) => Success(items)
    case PayloadObject(entry) => Success([entry])
    case PayloadOther => Failure(NotAnObject)
  }

  /** `routing_keywords` is present and not an empty object. */
  predicate HasKeywords(item: CatalogEntry) {
    item.routingKeywords.Some? && item.routingKeywords.value != map[]
  }

  /** One item checked against the ids seen before it, in the order of the source's checks. */
  function CheckItem(item: CatalogEntry, seen: set<string>): Result<Department> {
    if !Truthy(item.departmentId) then Failure(IdRequired)
    else
      var id := item.departmentId.value;
      if id in seen then Failure(DuplicateId(id))
      else if !HasKeywords(item) then Failure(KeywordsMissing(id))
      else if item.triageRules.None? then Failure(RulesMissing(id))
      else Success(Department(id, item.departmentName.GetOr(id), item.routingKeywords.value,
                              item.triageRules.value, item, map[]))
  }

  /** The identifiers of `deps`. */
  function IdSet(deps: seq<Department>): (r: set<string>)
    ensures forall k :: 0 <= k < |deps| ==> deps[k].departmentId in r
  {
    if deps == [] then {} else IdSet(deps[..|deps| - 1]) + {deps[|deps| - 1].departmentId}
  }

  lemma {:induction false} IdSetMembers(deps: seq<Department>, id: string)
    ensures id in IdSet(deps) <==> exists k :: 0 <= k < |deps| && deps[k].departmentId == id
  {
    if deps != [] {
      var init := deps[..|deps| - 1];
      IdSetMembers(init, id);
      if id in IdSet(init) {
        var k :| 0 <= k < |init| && init[k].departmentId == id;
        assert deps[k] == init[k];
      }
    }
  }

  /** The departments built from `items` in order, or the error of the first item that
      fails its checks. */
  function LoadItems(items: seq<CatalogEntry>): (r: Result<seq<Department>>)
    ensures r.Success? ==> |r.value| == |items|
  {
    if items == [] then Success([])
    else
      match LoadItems(items[..|items| - 1])
      case Failure(e) => Failure(e)
      case Success(deps) =>
        match CheckItem(items[|items| - 1], IdSet(deps))
        case Failure(e) => Failure(e)
        case Success(d) => Success(deps + [d])
  }

  /** `catalog_version`: the object's truthy version, otherwise "dev" (a list carries none). */
  function CatalogVersion(payload: Payload): string {
    if payload.PayloadObject? && Truthy(payload.entry.catalogVersion) then payload.entry.catalogVersion.value
    else DefaultVersion
  }

  /** The outcome of `load_departments_catalog` on a parsed payload. */
  function CatalogOf(payload: Payload): Result<DepartmentsCatalog> {
    match EnsureList(payload)
    case Failure(e) => Failure(e)
    case Success(items) =>
      match LoadItems(items)
      case Failure(e) => Failure(e)
      case Success(deps) => Success(DepartmentsCatalog(deps, CatalogVersion(payload)))
  }

  /** Every item has a truthy id, non-empty routing keywords and triage rules (possibly an
      empty list), and no two items share an id. */
  predicate Acceptable(items: seq<CatalogEntry>) {
    && (forall i :: 0 <= i < |items| ==>
          Truthy(items[i].departmentId) && HasKeywords(items[i]) && items[i].triageRules.Some?)
    && (forall i, j :: 0 <= i < j < |items| ==> items[i].departmentId != items[j].departmentId)
  }

  /** The department built from an accepted item: its id, its name or else its id, its
      keywords and rules, the item itself as `raw`, and an empty keyword index. */
  predicate BuiltFrom(d: Department, item: CatalogEntry)
    requires Truthy(item.departmentId) && HasKeywords(item) && item.triageRules.Some?
  {
    && d.departmentId == item.departmentId.value
    && d.departmentName == (if item.departmentName.Some? then item.departmentName.value else item.departmentId.value)
    && d.routingKeywords == item.routingKeywords.value
    && d.triageRules == item.triageRules.value
    && d.raw == item
    && d.keywordIndex == map[]
  }

  /** A successful load yields one department per item, in input order, built from that
      item. */
  lemma {:induction false} LoadItemsBuilt(items: seq<CatalogEntry>)
    ensures LoadItems(items).Success? ==>
      && (forall i :: 0 <= i < |items| ==> Truthy(items[i].departmentId) && HasKeywords(items[i]) && items[i].triageRules.Some?)
      && (forall i :: 0 <= i < |items| ==> BuiltFrom(LoadItems(items).value[i], items[i]))
  {
    if items != [] && LoadItems(items).Success? {
      var init := items[..|items| - 1];
      LoadItemsBuilt(init);
      var deps, all := LoadItems(init).value, LoadItems(items).value;
      assert all == deps + [all[|all| - 1]];
      forall i | 0 <= i < |items|
        ensures Truthy(items[i].departmentId) && HasKeywords(items[i]) && items[i].triageRules.Some?
        ensures BuiltFrom(all[i], items[i])
      {
        if i < |init| {
          assert all[i] == deps[i] && items[i] == init[i];
        }
      }
    }
  }

  /** Loading succeeds exactly on acceptable items. */
  lemma {:induction false} LoadItemsAccepts(items: seq<CatalogEntry>)
    ensures LoadItems(items).Success? <==> Acceptable(items)
  {
    if items != [] {
      var init := items[..|items| - 1];
      var last := items[|items| - 1];
      assert items == init + [last];
      LoadItemsAccepts(init);
      AcceptableSnoc(init, last);
      if LoadItems(init).Success? && Truthy(last.departmentId) {
        LoadedIds(init, last.departmentId.value);
      }
    }
  }

  /** Appending an item keeps the items acceptable exactly when the item passes its own
      checks and repeats no earlier id. */
  lemma AcceptableSnoc(init: seq<CatalogEntry>, last: CatalogEntry)
    ensures Acceptable(init + [last]) <==>
      && Acceptable(init)
      && Truthy(last.departmentId) && HasKeywords(last) && last.triageRules.Some?
      && forall k :: 0 <= k < |init| ==> init[k].departmentId != last.departmentId
  {
    var items := init + [last];
    assert forall i :: 0 <= i < |init| ==> items[i] == init[i];
    assert items[|init|] == last;
  }

  /** `AcceptableSnoc` for a prefix of a list. */
  lemma AcceptablePrefix(items: seq<CatalogEntry>, j: nat)
    requires j < |items|
    ensures Acceptable(items[..j + 1]) <==>
      && Acceptable(items[..j])
      && Truthy(items[j].departmentId) && HasKeywords(items[j]) && items[j].triageRules.Some?
      && forall k :: 0 <= k < j ==> items[..j][k].departmentId != items[j].departmentId
  {
    assert items[..j + 1] == items[..j] + [items[j]];
    AcceptableSnoc(items[..j], items[j]);
  }

  /** The ids of successfully loaded departments are the ids of the items. */
  lemma LoadedIds(items: seq<CatalogEntry>, id: string)
    requires LoadItems(items).Success?
    ensures id in IdSet(LoadItems(items).value) <==>
      exists k :: 0 <= k < |items| && items[k].departmentId == Some(id)
  {
    var deps := LoadItems(items).value;
    LoadItemsBuilt(items);
    IdSetMembers(deps, id);
    forall k | 0 <= k < |items| ensures deps[k].departmentId == items[k].departmentId.value {
      assert BuiltFrom(deps[k], items[k]);
    }
  }

  /** Once a prefix of the items fails, the whole list fails with the same error. */
  lemma {:induction false} FailurePersists(items: seq<CatalogEntry>, n: nat)
    requires n <= |items| && LoadItems(items[..n]).Failure?
    ensures LoadItems(items) == LoadItems(items[..n])
    decreases |items|
  {
    if n < |items| {
      var init := items[..|items| - 1];
      assert init[..n] == items[..n];
      FailurePersists(init, n);
    } else {
      assert items[..n] == items;
    }
  }

  /** On success every department id is unique. */
  lemma LoadedIdsUnique(payload: Payload)
    ensures CatalogOf(payload).Success? ==> UniqueIds(CatalogOf(payload).value.departments)
  {
    if CatalogOf(payload).Success? {
      var items := EnsureList(payload).value;
      var deps := LoadItems(items).value;
      LoadItemsAccepts(items);
      LoadItemsBuilt(items);
      forall i, j | 0 <= i < j < |deps| ensures deps[i].departmentId != deps[j].departmentId {
        assert BuiltFrom(deps[i], items[i]) && BuiltFrom(deps[j], items[j]);
      }
    }
  }

  /** An item repeating the id of an earlier, accepted item is rejected with an error
      naming that id, whatever follows. */
  lemma {:induction false} DuplicateIdRejected(items: seq<CatalogEntry>, i: nat, j: nat)
    requires i < j < |items| && Acceptable(items[..j])
    requires Truthy(items[j].departmentId) && items[j].departmentId == items[i].departmentId
    ensures LoadItems(items) == Failure(DuplicateId(items[j].departmentId.value))
    decreases |items|
  {
    if |items| == j + 1 {
      var init := items[..j];
      LoadItemsAccepts(init);
      LoadItemsBuilt(init);
      var deps := LoadItems(init).value;
      assert init[i] == items[i];
      assert BuiltFrom(deps[i], init[i]);
    } else {
      var init := items[..|items| - 1];
      assert init[..j] == items[..j];
      DuplicateIdRejected(init, i, j);
    }
  }

  /** The error raised for an item that does not pass its checks after an accepted prefix:
      a missing id first, then a repeated id, then missing keywords, then missing rules. */
  function ItemError(prefix: seq<CatalogEntry>, item: CatalogEntry): string {
    if !Truthy(item.departmentId) then IdRequired
    else if exists k :: 0 <= k < |prefix| && prefix[k].departmentId == item.departmentId then
      DuplicateId(item.departmentId.value)
    else if !HasKeywords(item) then KeywordsMissing(item.departmentId.value)
    else RulesMissing(item.departmentId.value)
  }

  /** The first item that makes the items unacceptable decides the load: it fails with
      that item's error, whatever follows. */
  lemma FirstRejectedItem(items: seq<CatalogEntry>, j: nat)
    requires j < |items| && Acceptable(items[..j]) && !Acceptable(items[..j + 1])
    ensures LoadItems(items) == Failure(ItemError(items[..j], items[j]))
  {
    var prefix, item := items[..j], items[j];
    LoadItemsAccepts(prefix);
    var deps := LoadItems(prefix).value;
    assert CheckItem(item, IdSet(deps)) == Failure(ItemError(prefix, item)) by {
      AcceptablePrefix(items, j);
      if Truthy(item.departmentId) {
        LoadedIds(prefix, item.departmentId.value);
      }
    }
    LoadStep(items, j, deps);
  }

  /** The catalog version is the object's own when it has a non-empty one, else "dev";
      a list payload is always "dev". */
  lemma CatalogVersionSpec(payload: Payload)
    ensures CatalogOf(payload).Success? ==> CatalogOf(payload).value.catalogVersion != ""
    ensures CatalogOf(payload).Success? && payload.PayloadList? ==> CatalogOf(payload).value.catalogVersion == DefaultVersion
    ensures CatalogOf(payload).Success? && payload.PayloadObject? && Truthy(payload.entry.catalogVersion) ==>
      CatalogOf(payload).value.catalogVersion == payload.entry.catalogVersion.value
    ensures CatalogOf(payload).Success? && payload.PayloadObject? && !Truthy(payload.entry.catalogVersion) ==>
      CatalogOf(payload).value.catalogVersion == DefaultVersion
  {
  }

  /** One step of the load: the next item's check either ends the whole load with its
      error or extends the loaded prefix by the department it builds. */
  lemma LoadStep(items: seq<CatalogEntry>, i: nat, deps: seq<Department>)
    requires i < |items| && LoadItems(items[..i]) == Success(deps)
    ensures CheckItem(items[i], IdSet(deps)).Failure? ==>
      LoadItems(items) == Failure(CheckItem(items[i], IdSet(deps)).error)
    ensures CheckItem(items[i], IdSet(deps)).Success? ==>
      LoadItems(items[..i + 1]) == Success(deps + [CheckItem(items[i], IdSet(deps)).value])
  {
    assert items[..i + 1][..i] == items[..i];
    if CheckItem(items[i], IdSet(deps)).Failure? {
      FailurePersists(items, i + 1);
    }
  }

  /** `load_departments_catalog` over a parsed payload. */
  method LoadDepartmentsCatalog(payload: Payload) returns (r: Result<DepartmentsCatalog>)
    ensures r == CatalogOf(payload)
  {
    var listed := EnsureList(payload);
    if listed.Failure? {
      return Failure(listed.error);
    }
    var items := listed.value;
    var departmentIds: set<string> := {};
    var departments: seq<Department> := [];
    for i := 0 to |items|
      invariant LoadItems(items[..i]) == Success(departments)
      invariant departmentIds == IdSet(departments)
    {
      LoadStep(items, i, departments);
      var item := items[i];
      var departmentId := item.departmentId;
      if !Truthy(departmentId) {
        return Failure(IdRequired);
      }
      var id := departmentId.value;
      if id in departmentIds {
        return Failure(DuplicateId(id));
      }
      departmentIds := departmentIds + {id};
      var routingKeywords := item.routingKeywords;
      var triageRules := item.triageRules;
      if routingKeywords.None? || routingKeywords.value == map[] {
        return Failure(KeywordsMissing(id));
      }
      if triageRules.None? {
        return Failure(RulesMissing(id));
      }
      var name := if item.departmentName.Some? then item.departmentName.value else id;
      departments := departments + [Department(id, name, routingKeywords.value, triageRules.value, item, map[])];
    }
    assert items[..|items|] == items;
    var version := if payload.PayloadObject? then payload.entry.catalogVersion else None;
    r := Success(DepartmentsCatalog(departments, if Truthy(version) then version.value else DefaultVersion));
  }
}
