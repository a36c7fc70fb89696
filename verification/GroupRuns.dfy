/** Whole runs of the page group manager: who owns each page. */
module GroupRuns {
  import opened PageLists
  import opened PageGroups

  // Groups are named by their position among the existing ones.
  datatype GroupOp = CreateGroup | AddPage(k: nat) | DeleteGroup(k: nat)

  // The lists, the ids minted so far, and the groups in order of creation.
  datatype Book = Book(lists: Lists, minted: nat, groups: seq<PageId>)

  function NewId(b: Book): PageId
    requires NULL_ID in b.lists
  {
    if b.lists[NULL_ID] == [] then b.minted + 1 else b.lists[NULL_ID][0]
  }

  // Ids are minted only when the free list is empty.
  function Minted(b: Book): nat
    requires NULL_ID in b.lists
  {
    if b.lists[NULL_ID] == [] then b.minted + 1 else b.minted
  }

  function After(b: Book, op: GroupOp): Book
  {
    if NULL_ID !in b.lists then b else
    match op
    case CreateGroup => Book(TakeNew(b.lists, NewId(b)), Minted(b), b.groups + [NewId(b)])
    case AddPage(k) =>
      if k < |b.groups| && b.groups[k] in TakeNew(b.lists, NewId(b))
      then Book(Attach(TakeNew(b.lists, NewId(b)), b.groups[k], NewId(b)), Minted(b), b.groups) else b
    case DeleteGroup(k) =>
      if k < |b.groups| && b.groups[k] in b.lists
      then Book(Dissolve(b.lists, b.groups[k]), b.minted, b.groups[..k] + b.groups[k + 1..]) else b
  }

  function AfterAll(ops: seq<GroupOp>): Book
  {
    if ops == [] then Book(map[NULL_ID := []], 0, []) else After(AfterAll(ops[..|ops| - 1]), ops[|ops| - 1])
  }

  // Every group of the manager is listed, once.
  ghost predicate ListsGroups(lists: Lists, groups: seq<PageId>)
  {
    && NULL_ID in lists && Distinct(groups)
    && (forall g :: g in lists && g != NULL_ID ==> g in groups)
    && (forall i :: 0 <= i < |groups| ==> groups[i] in lists && groups[i] != NULL_ID)
  }

  // The manager is in the state the book describes.
  ghost predicate Follows(manager: PageGroupManager, b: Book)
    reads manager
  {
    && manager.Valid()
    && manager.lists == b.lists && manager.pageAmount == b.minted
    && ListsGroups(b.lists, b.groups)
  }

  lemma ListsAfterCreate(b: Book)
    requires ListsGroups(b.lists, b.groups) && NewId(b) !in b.lists && NewId(b) != NULL_ID
    ensures ListsGroups(After(b, CreateGroup).lists, After(b, CreateGroup).groups)
  {
  }

  lemma ListsAfterAdd(b: Book, k: nat)
    requires ListsGroups(b.lists, b.groups) && NewId(b) !in b.lists && NewId(b) != NULL_ID && k < |b.groups|
    ensures After(b, AddPage(k)) == Book(Attach(TakeNew(b.lists, NewId(b)), b.groups[k], NewId(b)), Minted(b), b.groups)
    ensures ListsGroups(After(b, AddPage(k)).lists, b.groups)
  {
  }

  lemma ListsAfterDelete(b: Book, k: nat)
    requires ListsGroups(b.lists, b.groups) && k < |b.groups|
    ensures ListsGroups(After(b, DeleteGroup(k)).lists, After(b, DeleteGroup(k)).groups)
  {
    var lists, groups := After(b, DeleteGroup(k)).lists, After(b, DeleteGroup(k)).groups;
    forall g | g in lists && g != NULL_ID
      ensures g in groups
    {
      var i :| 0 <= i < |b.groups| && b.groups[i] == g;
      assert groups[if i < k then i else i - 1] == g;
    }
  }

  // One operation; an operation on a group that does not exist does nothing.
  method Step(manager: PageGroupManager, groups: seq<PageId>, op: GroupOp, ghost b: Book) returns (groups': seq<PageId>)
    requires Follows(manager, b) && groups == b.groups
    modifies manager
    ensures Follows(manager, After(b, op)) && groups' == After(b, op).groups
  {
    hide PageGroupManager.Inv, ListsGroups, Attach, TakeNew, Dissolve;
    groups' := groups;
    Listed(b);
    match op {
      case CreateGroup =>
        var g := manager.CreateGroup({});
        groups' := groups + [g];
        ListsAfterCreate(b);
      case AddPage(k) =>
        if k < |groups| {
          var id := manager.AddPage(groups[k], {});
          ListsAfterAdd(b, k);
        }
      case DeleteGroup(k) =>
        if k < |groups| {
          manager.DeleteGroup(groups[k], {});
          ghost var none: set<PageId> := {};
          assert none - {groups[k]} == none;
          groups' := groups[..k] + groups[k + 1..];
          ListsAfterDelete(b, k);
        }
    }
  }

  lemma Listed(b: Book)
    requires ListsGroups(b.lists, b.groups)
    ensures NULL_ID in b.lists
    ensures forall i :: 0 <= i < |b.groups| ==> b.groups[i] in b.lists && b.groups[i] != NULL_ID
  {
  }

  // Over every run the lists are exactly what the operations make them, all links are right, and
  // each id minted so far lies on exactly one list.
  method Run(ops: seq<GroupOp>) returns (manager: PageGroupManager, groups: seq<PageId>)
    ensures Follows(manager, AfterAll(ops)) && groups == AfterAll(ops).groups
    ensures forall id :: 1 <= id <= manager.pageAmount ==> OnOneList(manager.lists, id)
  {
    hide PageGroupManager.Inv, After, ListsGroups;
    manager := new PageGroupManager();
    groups := [];
    StartListed();
    for n := 0 to |ops|
      invariant fresh(manager)
      invariant Follows(manager, AfterAll(ops[..n])) && groups == AfterAll(ops[..n]).groups
    {
      assert ops[..n + 1][..n] == ops[..n];
      groups := Step(manager, groups, ops[n], AfterAll(ops[..n]));
    }
    assert ops[..|ops|] == ops;
    EveryIdOnce(manager);
  }

  lemma StartListed()
    ensures ListsGroups(map[NULL_ID := []], [])
  {
  }

  // Exactly one list, exactly one index in it.
  ghost predicate OnOneList(lists: Lists, id: PageId)
  {
    exists p :: At(lists, p, id) && forall q :: At(lists, q, id) ==> q == p
  }

  lemma EveryIdOnce(manager: PageGroupManager)
    requires manager.Valid()
    ensures forall id :: 1 <= id <= manager.pageAmount ==> OnOneList(manager.lists, id)
  {
    forall id | 1 <= id <= manager.pageAmount
      ensures OnOneList(manager.lists, id)
    {
      OnExactlyOneList(manager.lists, manager.place, manager.pageAmount, id);
    }
  }
}
