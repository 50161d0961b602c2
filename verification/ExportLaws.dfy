/** What an export hands out and what its confirmation deletes, field by field: which rows an item asks for,
    what each container lists of them, and what is left. */
module ExportLaws {
  import opened Tables
  import opened KeyExport

  /** The rows an item asks for: of this user and wallet, and if it lists addresses, at one of them, on the
      chain given with it or on any. */
  ghost predicate Wanted(user: string, item: Item, r: Row) {
    && r.user == user && r.walletId == item.walletId
    && (item.addresses == []
        || exists a :: a in item.addresses && a.address == r.address && (a.chainId == None || a.chainId == Some(r.chainId)))
  }

  ghost predicate WantedByAny(user: string, info: seq<Item>, r: Row) {
    exists item :: item in info && Wanted(user, item, r)
  }

  lemma SelectedIsWanted(user: string, item: Item, r: Row)
    ensures Selected(user, item, r) <==> Wanted(user, item, r)
  {
    if i :| 0 <= i < |item.addresses| && Matches(item.addresses[i], r) {
      var a := item.addresses[i];
      assert a in item.addresses && a.address == r.address && (a.chainId == None || a.chainId == Some(r.chainId));
    }
    if a :| a in item.addresses && a.address == r.address && (a.chainId == None || a.chainId == Some(r.chainId)) {
      assert Matches(a, r);
    }
  }

  lemma SelectedByAnyIsWanted(user: string, info: seq<Item>, r: Row)
    ensures SelectedByAny(user, info, r) <==> WantedByAny(user, info, r)
  {
    forall item ensures Selected(user, item, r) <==> Wanted(user, item, r) {
      SelectedIsWanted(user, item, r);
    }
    hide Selected, Wanted;
    if item :| item in info && Wanted(user, item, r) {
      var i :| 0 <= i < |info| && info[i] == item;
      assert Selected(user, info[i], r);
    }
  }

  lemma WantedRows(wallets: seq<Row>, user: string, item: Item, r: Row)
    ensures r in RowsOf(wallets, user, item) <==> r in wallets && Wanted(user, item, r)
  {
    KeptRows(wallets, SelectedBy(user, item), r);
    SelectedIsWanted(user, item, r);
  }

  // ---- what a container lists ------------------------------------------------------------

  lemma RowIsListed(rows: seq<Row>, r: Row)
    requires r in rows
    ensures Lists(GroupRows(rows), r)
  {
    hide GroupRows, Under, Lists;
    var p := GroupedUnder(GroupOf(r));
    EveryRowIsListedOnce(rows, GroupOf(r));
    KeptRows(rows, p, r);
    var i :| 0 <= i < |Keep(rows, p)| && Keep(rows, p)[i] == r;
    InKeys(Keep(rows, p), KeyOf(r));
    ListsIff(GroupRows(rows), r);
  }

  /** The entry of a group that shows a row of the group. */
  predicate EntryOf(g: Group, d: KeyData, r: Row) {
    Groups(g.key, r) && Shows(d, r)
  }

  lemma EntryIsOfARow(rows: seq<Row>, g: Group, d: KeyData)
    requires g in GroupRows(rows) && d in g.keys
    ensures exists r :: r in rows && EntryOf(g, d, r)
  {
    hide GroupRows, Under;
    var p := GroupedUnder(g.key);
    EveryRowIsListedOnce(rows, g.key);
    InUnder(GroupRows(rows), g.key, d);
    InKeys(Keep(rows, p), d);
    var i :| 0 <= i < |Keep(rows, p)| && KeyOf(Keep(rows, p)[i]) == d;
    KeptRows(rows, p, Keep(rows, p)[i]);
    assert EntryOf(g, d, Keep(rows, p)[i]);
  }

  lemma RowsAreListed(rows: seq<Row>)
    ensures forall r :: r in rows ==> Lists(GroupRows(rows), r)
    ensures forall g, d :: g in GroupRows(rows) && d in g.keys ==> exists r :: r in rows && EntryOf(g, d, r)
  {
    hide GroupRows, Lists, EntryOf;
    forall r | r in rows ensures Lists(GroupRows(rows), r) {
      RowIsListed(rows, r);
    }
    forall g, d | g in GroupRows(rows) && d in g.keys ensures exists r :: r in rows && EntryOf(g, d, r) {
      EntryIsOfARow(rows, g, d);
    }
  }

  /** The first of the rows that belong to a group. */
  ghost predicate FirstOf(rows: seq<Row>, k: GroupKey, i: int) {
    && 0 <= i < |rows| && Groups(k, rows[i])
    && forall j :: 0 <= j < i ==> !Groups(k, rows[j])
  }

  lemma {:induction false} GroupsAfterAdding(groups: seq<Group>, r: Row, g: Group)
    requires g in AddRow(groups, r)
    ensures (exists h :: h in groups && h.key == g.key && h.walletType == g.walletType)
         || (g.key == GroupOf(r) && g.walletType == r.walletType && forall h :: h in groups ==> h.key != g.key)
  {
    if groups != [] {
      assert forall h :: h in groups <==> h == groups[0] || h in groups[1..];
      if groups[0].key == GroupOf(r) {
        assert g == AddRow(groups, r)[0] || g in groups[1..];
      } else if g != groups[0] {
        assert g in AddRow(groups[1..], r);
        GroupsAfterAdding(groups[1..], r, g);
      }
    }
  }

  /** A group is given the wallet type of its first row. */
  lemma {:induction false} GroupHasTypeOfFirstRow(rows: seq<Row>, g: Group) returns (i: nat)
    requires g in GroupRows(rows)
    ensures FirstOf(rows, g.key, i) && rows[i].walletType == g.walletType
  {
    var n := |rows| - 1;
    var front, last := rows[..n], rows[n];
    GroupsAfterAdding(GroupRows(front), last, g);
    if h :| h in GroupRows(front) && h.key == g.key && h.walletType == g.walletType {
      i := GroupHasTypeOfFirstRow(front, h);
      assert forall j :: 0 <= j < n ==> front[j] == rows[j];
    } else {
      i := n;
      forall j | 0 <= j < n ensures !Groups(g.key, rows[j]) {
        RowIsListed(front, front[j]);
        var h, d :| h in GroupRows(front) && d in h.keys && Groups(h.key, front[j]) && Shows(d, front[j]);
        assert h.key != g.key;
      }
    }
  }

  lemma {:induction false} KeysShowRows(rows: seq<Row>)
    ensures |KeysOf(rows)| == |rows| && forall i :: 0 <= i < |rows| ==> Shows(KeysOf(rows)[i], rows[i])
  {
    if rows != [] {
      KeysShowRows(rows[..|rows| - 1]);
    }
  }

  /** A group lists the rows of its mnemonic, or its one bare key, in table order; over all groups there are
      as many entries as rows. */
  lemma ListedInTableOrder(rows: seq<Row>, k: GroupKey)
    ensures var listed, mine := Under(GroupRows(rows), k), Keep(rows, r => Groups(k, r));
      |listed| == |mine| && forall i :: 0 <= i < |mine| ==> Shows(listed[i], mine[i])
    ensures |Flatten(GroupRows(rows))| == |rows|
  {
    hide GroupRows, Under, Flatten, Keep;
    KeepSame(rows, r => Groups(k, r), GroupedUnder(k));
    EveryRowIsListedOnce(rows, k);
    KeysShowRows(Keep(rows, GroupedUnder(k)));
    KeysShowRows(rows);
    assert |Flatten(GroupRows(rows))| == |multiset(Flatten(GroupRows(rows)))| == |multiset(KeysOf(rows))| == |rows|;
  }

  // ---- the export ------------------------------------------------------------------------

  ghost predicate SelectsSome(wallets: seq<Row>, user: string, item: Item) {
    exists r :: r in wallets && Wanted(user, item, r)
  }

  /** Every row asked for is listed in its group, with all its fields, the private key included. */
  ghost predicate ListsTheWanted(groups: seq<Group>, wallets: seq<Row>, user: string, item: Item) {
    forall r :: r in wallets && Wanted(user, item, r) ==> Lists(groups, r)
  }

  /** Every entry listed is that of a row asked for. */
  ghost predicate ListsOnlyTheWanted(groups: seq<Group>, wallets: seq<Row>, user: string, item: Item) {
    forall g, d :: g in groups && d in g.keys ==> exists r :: r in wallets && Wanted(user, item, r) && EntryOf(g, d, r)
  }

  /** A container of an item: under its wallet id, the rows asked for and no others, in distinct groups. */
  ghost predicate ContainerOf(c: Container, wallets: seq<Row>, user: string, item: Item) {
    && c.walletId == item.walletId
    && ListsTheWanted(c.groups, wallets, user, item)
    && ListsOnlyTheWanted(c.groups, wallets, user, item)
    && (forall i, j :: 0 <= i < j < |c.groups| ==> c.groups[i].key != c.groups[j].key)
  }

  lemma GroupedRowsAreTheContainer(wallets: seq<Row>, user: string, item: Item)
    ensures ContainerOf(Container(item.walletId, GroupRows(RowsOf(wallets, user, item))), wallets, user, item)
    ensures RowsOf(wallets, user, item) != [] <==> SelectsSome(wallets, user, item)
  {
    hide GroupRows, RowsOf, Lists, Wanted, EntryOf;
    var rows := RowsOf(wallets, user, item);
    var groups := GroupRows(rows);
    forall r ensures r in rows <==> r in wallets && Wanted(user, item, r) {
      WantedRows(wallets, user, item, r);
    }
    if rows != [] {
      assert rows[0] in rows;
    }
    forall r | r in rows ensures Lists(groups, r) {
      RowIsListed(rows, r);
    }
    forall g, d | g in groups && d in g.keys ensures exists r :: r in wallets && Wanted(user, item, r) && EntryOf(g, d, r) {
      EntryIsOfARow(rows, g, d);
      var r :| r in rows && EntryOf(g, d, r);
      assert r in wallets && Wanted(user, item, r) && EntryOf(g, d, r);
    }
    EveryRowIsListedOnce(rows, OfMnemonic(""));
  }

  /** An export succeeds exactly when every item asks for some row that is there; it then has one container
      for each item, in their order. */
  lemma {:induction false} ExportHandsOut(wallets: seq<Row>, user: string, info: seq<Item>)
    ensures Export(wallets, user, info).Some? <==> forall i :: 0 <= i < |info| ==> SelectsSome(wallets, user, info[i])
    ensures Export(wallets, user, info).Some? ==>
      var all := Export(wallets, user, info).value;
      |all| == |info| && forall i :: 0 <= i < |info| ==> ContainerOf(all[i], wallets, user, info[i])
  {
    hide GroupRows, RowsOf, ContainerOf, SelectsSome;
    if info != [] {
      var n := |info| - 1;
      ExportHandsOut(wallets, user, info[..n]);
      GroupedRowsAreTheContainer(wallets, user, info[n]);
      assert forall i :: 0 <= i < n ==> info[..n][i] == info[i];
    }
  }

  /** An export that hands out containers opens a session for them, and changes nothing else. */
  lemma InitiateOpensASession(v: Vault, sessionId: string, user: string, info: seq<Item>, expiresAt: int)
    ensures var (next, containers) := Initiate(v, sessionId, user, info, expiresAt);
      && (containers.Some? <==> info != [] && forall i :: 0 <= i < |info| ==> SelectsSome(v.wallets, user, info[i]))
      && next.wallets == v.wallets
      && next.sessions == (if containers.None? then v.sessions else v.sessions[sessionId := Session(user, info, expiresAt)])
      && (containers.Some? ==>
            |containers.value| == |info|
            && forall i :: 0 <= i < |info| ==> ContainerOf(containers.value[i], v.wallets, user, info[i]))
  {
    hide Export, SelectsSome, ContainerOf;
    ExportHandsOut(v.wallets, user, info);
  }

  /** Confirming goes through for a session that has not run out, deletes the rows its items ask for now, and
      ends it. */
  lemma ConfirmDeletesTheWanted(v: Vault, sessionId: string, now: int, r: Row)
    ensures var (next, count) := Confirm(v, sessionId, now);
      && (count.Some? <==> sessionId in v.sessions && now < v.sessions[sessionId].expiresAt)
      && (count.None? ==> next == v)
      && (count.Some? ==>
            && (r in next.wallets <==>
                  r in v.wallets && !WantedByAny(v.sessions[sessionId].user, v.sessions[sessionId].info, r))
            && next.sessions == v.sessions - {sessionId}
            && count.value == |v.wallets| - |next.wallets|)
  {
    ConfirmRemovesTheSelected(v, sessionId, now, now, r);
    if sessionId in v.sessions {
      SelectedByAnyIsWanted(v.sessions[sessionId].user, v.sessions[sessionId].info, r);
    }
  }

  /** A container lists this private key, under the address and chain it is for. */
  ghost predicate HandsOutKey(c: Container, r: Row) {
    && c.walletId == r.walletId
    && exists g, d :: g in c.groups && d in g.keys
                   && d.address == r.address && d.chainId == r.chainId && d.privateKey == r.privateKey
  }

  lemma ListedIsHandedOut(c: Container, wallets: seq<Row>, user: string, item: Item, r: Row)
    requires ContainerOf(c, wallets, user, item) && r in wallets && Wanted(user, item, r)
    ensures HandsOutKey(c, r)
  {
    hide ListsOnlyTheWanted;
    assert Lists(c.groups, r);
    var g, d :| g in c.groups && d in g.keys && Groups(g.key, r) && Shows(d, r);
  }

  /** No key is lost: whatever a confirmation deletes from a table that has not changed since the export was
      listed by it, with its private key. */
  lemma NoKeyIsLost(before: Vault, sessionId: string, user: string, info: seq<Item>, expiresAt: int, now: int, r: Row)
    requires Initiate(before, sessionId, user, info, expiresAt).1.Some? && now < expiresAt
    requires var started := Initiate(before, sessionId, user, info, expiresAt).0;
      r in before.wallets && r !in Confirm(started, sessionId, now).0.wallets
    ensures exists c :: c in Initiate(before, sessionId, user, info, expiresAt).1.value && HandsOutKey(c, r)
  {
    hide Initiate, Confirm, Wanted, ContainerOf, HandsOutKey, SelectsSome;
    var (started, containers) := Initiate(before, sessionId, user, info, expiresAt);
    InitiateOpensASession(before, sessionId, user, info, expiresAt);
    ConfirmDeletesTheWanted(started, sessionId, now, r);
    var item :| item in info && Wanted(user, item, r);
    var i :| 0 <= i < |info| && info[i] == item;
    ListedIsHandedOut(containers.value[i], before.wallets, user, item, r);
    assert containers.value[i] in containers.value;
  }
}
