/** The in-memory account repository (Bank.Api/Logic/Storage.cs): a list of
    accounts with id generation, lookup, listing and removal. The backing file is
    abstracted to the outcome of reading and parsing it. */
module Storage {
  import opened Wrappers
  import opened Accounts

  /** The accounts, in the order they were loaded or added. */
  type Store = seq<Account>

  /** `firstId`. */
  const FirstId := 1

  /** What reading the backing file yields: no file; a document that parsed (to a
      list of accounts, or to `null`); or one the JSON reader rejected (a
      `JsonException`). */
  datatype BackingFile =
    | Missing
    | Parsed(doc: Option<seq<Account>>)
    | JsonError

  /** The exception that escapes the load: the stored class keeps its history as
      a list of an interface type, which the JSON reader cannot instantiate, so
      any stored transaction raises `NotSupportedException`. */
  datatype LoadError = NotSupported

  /** An account in the document carries at least one transaction. */
  predicate HoldsTransactions(doc: seq<Account>) {
    exists i :: 0 <= i < |doc| && doc[i].txns != []
  }

  /** The constructor's load: a missing file is first written as `[]`, and a `null`
      document or a `JsonException` falls back to an empty store. Only the
      `JsonException` is caught: a document holding a transaction makes the load
      throw. */
  function Load(f: BackingFile): (r: Result<Store, LoadError>)
    ensures r.Failure? <==> f.Parsed? && f.doc.Some? && HoldsTransactions(f.doc.value)
    ensures f.Missing? || f.JsonError? || f == Parsed(None) ==> r == Success([])
    ensures f.Parsed? && f.doc.Some? && !HoldsTransactions(f.doc.value) ==> r == Success(f.doc.value)
  {
    match f
    case Missing => Success([])
    case Parsed(None) => Success([])
    case Parsed(Some(doc)) => if HoldsTransactions(doc) then Failure(NotSupported) else Success(doc)
    case JsonError => Success([])
  }

  /** Every account a load returns has an empty history, so its balance is zero:
      a store can only be repopulated with transactions after it is loaded. */
  lemma LoadedHistoriesEmpty(f: BackingFile)
    ensures Load(f).Success? ==>
      forall i :: 0 <= i < |Load(f).value| ==> Load(f).value[i].txns == [] && Balance(Load(f).value[i]) == 0.0
  {
  }

  /** No two accounts share an id. */
  predicate UniqueIds(s: Store) {
    forall i, j :: 0 <= i < j < |s| ==> s[i].id != s[j].id
  }

  /** Every id is at least `FirstId`. */
  predicate PositiveIds(s: Store) {
    forall i :: 0 <= i < |s| ==> s[i].id >= FirstId
  }

  /** The invariant of every store built from an empty one by adding and removing. */
  predicate Valid(s: Store) {
    UniqueIds(s) && PositiveIds(s)
  }

  /** `ListAccounts`: the ids, in list order. */
  function ListAccounts(s: Store): (ids: seq<int>)
    ensures |ids| == |s|
    ensures forall i :: 0 <= i < |s| ==> ids[i] == s[i].id
  {
    if |s| == 0 then [] else [s[0].id] + ListAccounts(s[1..])
  }

  /** The position of an account with the greatest id. */
  function MaxIndex(s: Store): (k: nat)
    requires |s| > 0
    ensures k < |s|
    ensures forall i :: 0 <= i < |s| ==> s[i].id <= s[k].id
  {
    if |s| == 1 then 0
    else
      var k := MaxIndex(s[1..]);
      if s[0].id >= s[k + 1].id then 0 else k + 1
  }

  /** `GenerateNewAccountId`: `FirstId` for an empty store, otherwise one past the
      greatest id, computed without overflow (see `NextIdAsWritten`). */
  function NextId(s: Store): (id: int)
    ensures |s| == 0 ==> id == FirstId
    ensures forall i :: 0 <= i < |s| ==> s[i].id < id
    ensures |s| > 0 ==> exists i :: 0 <= i < |s| && s[i].id == id - 1
  {
    if |s| == 0 then FirstId
    else
      var k := MaxIndex(s);
      s[k].id + 1
  }

  /** `AddAccount`: appends a fresh account with the next id, default settings
      and an empty history; returns the new store and the new account. */
  function AddAccount(s: Store): (r: (Store, Account))
    ensures r.0 == s + [r.1]
    ensures r.1.id == NextId(s)
    ensures forall i :: 0 <= i < |s| ==> s[i].id < r.1.id
    ensures |s| == 0 ==> r.1.id == FirstId
    ensures r.1.settings == DefaultSettings && r.1.nickname == "" && r.1.txns == []
    ensures Valid(s) ==> Valid(r.0)
  {
    var a := Account(DefaultSettings, NextId(s), "", []);
    (s + [a], a)
  }

  /** The position of the first account with the given id, if any. */
  function FirstIndex(s: Store, id: int): (r: Option<nat>)
    ensures r.None? <==> forall i :: 0 <= i < |s| ==> s[i].id != id
    ensures r.Some? ==> r.value < |s| && s[r.value].id == id
    ensures r.Some? ==> forall j :: 0 <= j < r.value ==> s[j].id != id
  {
    if |s| == 0 then None
    else if s[0].id == id then Some(0)
    else
      match FirstIndex(s[1..], id)
      case None => None
      case Some(k) => Some(k + 1)
  }

  /** `GetAccount`: the first account with the id, or `None`. */
  function GetAccount(s: Store, id: int): (r: Option<Account>)
    ensures r.None? <==> forall i :: 0 <= i < |s| ==> s[i].id != id
    ensures r.Some? ==> r.value in s && r.value.id == id
    ensures r.Some? ==> exists i :: 0 <= i < |s| && s[i] == r.value && forall j :: 0 <= j < i ==> s[j].id != id
  {
    match FirstIndex(s, id)
    case None => None
    case Some(i) => Some(s[i])
  }

  /** With unique ids, looking an id up finds exactly the account that has it. */
  lemma GetUnique(s: Store, a: Account)
    requires UniqueIds(s)
    ensures GetAccount(s, a.id) == Some(a) <==> a in s
  {
    if a in s {
      var m :| 0 <= m < |s| && s[m] == a;
      FirstIndexIs(s, a.id, m);
    }
  }

  /** `RemoveAccount`: drops the first account with the id; a no-op when there is
      none. */
  function RemoveAccount(s: Store, id: int): (r: Store)
    ensures GetAccount(s, id).None? ==> r == s
    ensures GetAccount(s, id).Some? ==> |r| == |s| - 1
    ensures GetAccount(s, id).Some? ==>
      exists i :: && 0 <= i < |s| && s[i] == GetAccount(s, id).value
                  && (forall j :: 0 <= j < i ==> s[j].id != id)
                  && r[..i] == s[..i] && r[i..] == s[i + 1..]
  {
    match FirstIndex(s, id)
    case None => s
    case Some(i) => s[..i] + s[i + 1..]
  }

  /** Removal keeps the store invariant. */
  lemma RemovePreservesValid(s: Store, id: int)
    requires Valid(s)
    ensures Valid(RemoveAccount(s, id))
  {
    var r := RemoveAccount(s, id);
    match FirstIndex(s, id)
    case None =>
    case Some(k) =>
      assert forall i :: 0 <= i < |r| ==> r[i] == (if i < k then s[i] else s[i + 1]);
  }

  /** A position holding the id with no earlier one holding it is the first index. */
  lemma FirstIndexIs(s: Store, id: int, m: nat)
    requires m < |s| && s[m].id == id
    requires forall j :: 0 <= j < m ==> s[j].id != id
    ensures FirstIndex(s, id) == Some(m)
  {
  }

  /** With unique ids, a removed id is gone. */
  lemma RemoveThenGet(s: Store, id: int)
    requires UniqueIds(s)
    ensures GetAccount(RemoveAccount(s, id), id).None?
  {
    var r := RemoveAccount(s, id);
    match FirstIndex(s, id)
    case None =>
    case Some(k) =>
      forall i | 0 <= i < |r|
        ensures r[i].id != id
      {
        if i < k {
          assert r[i] == s[..k][i];
        } else {
          assert r[i] == s[k + 1..][i - k];
        }
      }
  }

  /** Removal of the leading account's id drops that account. */
  lemma RemoveHead(s: Store, id: int)
    requires |s| > 0 && s[0].id == id
    ensures RemoveAccount(s, id) == s[1..]
  {
    assert FirstIndex(s, id) == Some(0);
  }

  /** Removal passes over a leading account with another id. */
  lemma RemoveCons(s: Store, id: int)
    requires |s| > 0 && s[0].id != id
    ensures RemoveAccount(s, id) == [s[0]] + RemoveAccount(s[1..], id)
  {
    match FirstIndex(s[1..], id)
    case None =>
    case Some(k) =>
      assert FirstIndex(s, id) == Some(k + 1);
      assert s[..k + 1] == [s[0]] + s[1..][..k];
      assert s[k + 2..] == s[1..][k + 1..];
  }

  /** Lookup examines the accounts front to back. */
  lemma GetCons(s: Store, id: int)
    requires |s| > 0
    ensures GetAccount(s, id) == if s[0].id == id then Some(s[0]) else GetAccount(s[1..], id)
  {
    if s[0].id != id {
      match FirstIndex(s[1..], id)
      case None =>
      case Some(k) =>
        assert FirstIndex(s, id) == Some(k + 1);
    }
  }

  /** Removing one id leaves the lookup of every other id as it was. */
  lemma {:induction false} RemoveKeepsOthers(s: Store, id: int, other: int)
    requires other != id
    ensures GetAccount(RemoveAccount(s, id), other) == GetAccount(s, other)
    decreases |s|
  {
    if |s| > 0 {
      GetCons(s, other);
      if s[0].id == id {
        RemoveHead(s, id);
      } else {
        RemoveCons(s, id);
        var r := RemoveAccount(s, id);
        GetCons(r, other);
        assert r[0] == s[0] && r[1..] == RemoveAccount(s[1..], id);
        RemoveKeepsOthers(s[1..], id, other);
      }
    }
  }

  /** Listing after an add is the old listing followed by the new id, which was
      not listed before. */
  lemma ListAfterAdd(s: Store)
    ensures var r := AddAccount(s);
      ListAccounts(r.0) == ListAccounts(s) + [r.1.id] && r.1.id !in ListAccounts(s)
  {
  }

  /** Removing the account just added and adding again hands out the same id:
      ids are reused. */
  lemma IdReuse(s: Store)
    ensures var r := AddAccount(s);
      AddAccount(RemoveAccount(r.0, r.1.id)).1.id == r.1.id
  {
    var r := AddAccount(s);
    FirstIndexIs(r.0, r.1.id, |s|);
    assert r.0[..|s|] == s;
  }

  /** From a missing file, the first two accounts get ids 1 and 2. */
  lemma FirstIdsScenario()
    ensures var r1 := AddAccount(Load(Missing).value);
      var r2 := AddAccount(r1.0);
      r1.1.id == 1 && r2.1.id == 2 && ListAccounts(r2.0) == [1, 2]
  {
  }

  // 32-bit id arithmetic, as the source computes it.

  const Int32Min := -0x8000_0000
  const Int32Max := 0x7FFF_FFFF

  /** C#'s unchecked `int` addition result. */
  function Wrap32(x: int): (r: int)
    ensures Int32Min <= r <= Int32Max
    ensures Int32Min <= x <= Int32Max ==> r == x
    ensures (x - r) % 0x1_0000_0000 == 0
  {
    (x - Int32Min) % 0x1_0000_0000 + Int32Min
  }

  /** Every id fits an `int` and is below `int.MaxValue`. */
  predicate BelowInt32Max(s: Store) {
    forall i :: 0 <= i < |s| ==> Int32Min <= s[i].id < Int32Max
  }

  /** `GenerateNewAccountId` as written: `Max(a => a.Id) + 1` in 32-bit arithmetic. */
  function NextIdAsWritten(s: Store): (id: int)
    ensures Int32Min <= id <= Int32Max
    ensures BelowInt32Max(s) ==> id == NextId(s)
  {
    if |s| == 0 then FirstId else Wrap32(s[MaxIndex(s)].id + 1)
  }

  /** A store whose greatest id is `int.MaxValue` gets `int.MinValue` as its next
      id, which is below every existing id and breaks the store invariant. */
  lemma NextIdOverflow()
    ensures var s := [Account(DefaultSettings, Int32Max, "", [])];
      && Valid(s)
      && NextIdAsWritten(s) == Int32Min
      && !Valid(s + [Account(DefaultSettings, NextIdAsWritten(s), "", [])])
  {
    var s := [Account(DefaultSettings, Int32Max, "", [])];
    assert MaxIndex(s) == 0;
    assert Wrap32(Int32Max + 1) == Int32Min;
    var s' := s + [Account(DefaultSettings, NextIdAsWritten(s), "", [])];
    assert s'[1].id < FirstId;
  }
}
