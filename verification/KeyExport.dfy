/** Exporting wallet rows and deleting them once the client confirms: key-export.js. Encryption and key
    exchange are left out; what is exported is the grouped rows. */
module KeyExport {
  import opened Tables

  /** A wallets row; an empty mnemonic or path is None. */
  datatype Row = Row(
    user: string,
    walletId: string,
    walletType: string,
    mnemonic: Option<string>,
    chainId: int,
    coinType: int,
    address: string,
    privateKey: string,
    path: Option<string>)

  /** An address of an export item: on one chain, or on any. */
  datatype Addr = Addr(address: string, chainId: Option<int>)

  datatype Item = Item(walletId: string, addresses: seq<Addr>)

  datatype Session = Session(user: string, info: seq<Item>, expiresAt: int)

  datatype Vault = Vault(wallets: seq<Row>, sessions: map<string, Session>)

  // ---- selecting rows --------------------------------------------------------------------

  predicate Matches(a: Addr, r: Row) {
    r.address == a.address && (a.chainId.Some? ==> r.chainId == a.chainId.value)
  }

  predicate MatchesAny(addresses: seq<Addr>, r: Row) {
    exists i :: 0 <= i < |addresses| && Matches(addresses[i], r)
  }

  predicate OfWallet(user: string, walletId: string, r: Row) {
    r.user == user && r.walletId == walletId
  }

  predicate Selected(user: string, item: Item, r: Row) {
    OfWallet(user, item.walletId, r) && (item.addresses == [] || MatchesAny(item.addresses, r))
  }

  predicate SelectedByAny(user: string, info: seq<Item>, r: Row) {
    exists i :: 0 <= i < |info| && Selected(user, info[i], r)
  }

  function Not(p: Row -> bool): Row -> bool {
    r => !p(r)
  }

  function SelectedBy(user: string, item: Item): Row -> bool {
    r => Selected(user, item, r)
  }

  function SelectedByOneOf(user: string, info: seq<Item>): Row -> bool {
    r => SelectedByAny(user, info, r)
  }

  function GroupedUnder(k: GroupKey): Row -> bool {
    r => GroupOf(r) == k
  }

  function Keep(rows: seq<Row>, p: Row -> bool): seq<Row> {
    if rows == [] then []
    else Keep(rows[..|rows| - 1], p) + if p(rows[|rows| - 1]) then [rows[|rows| - 1]] else []
  }

  lemma {:induction false} KeptRows(rows: seq<Row>, p: Row -> bool, r: Row)
    ensures r in Keep(rows, p) <==> r in rows && p(r)
    ensures |Keep(rows, p)| <= |rows|
  {
    if rows != [] {
      var front, last := rows[..|rows| - 1], rows[|rows| - 1];
      KeptRows(front, p, r);
      assert rows == front + [last];
    }
  }

  lemma KeepOneMore(rows: seq<Row>, p: Row -> bool, r: Row)
    ensures Keep(rows + [r], p) == Keep(rows, p) + if p(r) then [r] else []
  {
    assert (rows + [r])[..|rows|] == rows;
  }

  lemma {:induction false} KeepTwice(rows: seq<Row>, p: Row -> bool, q: Row -> bool, both: Row -> bool)
    requires forall r :: both(r) <==> p(r) && q(r)
    ensures Keep(Keep(rows, p), q) == Keep(rows, both)
  {
    if rows != [] {
      var front, last := rows[..|rows| - 1], rows[|rows| - 1];
      KeepTwice(front, p, q, both);
      KeepOneMore(Keep(front, p), q, last);
      assert Keep(rows, p) == if p(last) then Keep(front, p) + [last] else Keep(front, p);
    }
  }

  lemma {:induction false} KeepSame(rows: seq<Row>, p: Row -> bool, q: Row -> bool)
    requires forall r :: r in rows ==> (p(r) <==> q(r))
    ensures Keep(rows, p) == Keep(rows, q)
  {
    if rows != [] {
      var front, last := rows[..|rows| - 1], rows[|rows| - 1];
      assert last in rows && forall r :: r in front ==> r in rows;
      KeepSame(front, p, q);
    }
  }

  // ---- grouping rows ---------------------------------------------------------------------

  /** Rows of one mnemonic form one logical wallet; a row without one stands alone. */
  datatype GroupKey = OfMnemonic(text: string) | OfKey(address: string, chainId: int)

  datatype KeyData = KeyData(chainId: int, coinType: int, address: string, privateKey: string, path: Option<string>)

  datatype Group = Group(key: GroupKey, walletType: string, keys: seq<KeyData>)

  datatype Container = Container(walletId: string, groups: seq<Group>)

  function GroupOf(r: Row): GroupKey {
    if r.mnemonic.Some? then OfMnemonic(r.mnemonic.value) else OfKey(r.address, r.chainId)
  }

  function KeyOf(r: Row): KeyData {
    KeyData(r.chainId, r.coinType, r.address, r.privateKey, r.path)
  }

  function AddRow(groups: seq<Group>, r: Row): seq<Group> {
    if groups == [] then [Group(GroupOf(r), r.walletType, [KeyOf(r)])]
    else if groups[0].key == GroupOf(r) then [groups[0].(keys := groups[0].keys + [KeyOf(r)])] + groups[1..]
    else [groups[0]] + AddRow(groups[1..], r)
  }

  function GroupRows(rows: seq<Row>): seq<Group> {
    if rows == [] then [] else AddRow(GroupRows(rows[..|rows| - 1]), rows[|rows| - 1])
  }

  function KeysOf(rows: seq<Row>): seq<KeyData> {
    if rows == [] then [] else KeysOf(rows[..|rows| - 1]) + [KeyOf(rows[|rows| - 1])]
  }

  function Flatten(groups: seq<Group>): seq<KeyData> {
    if groups == [] then [] else groups[0].keys + Flatten(groups[1..])
  }

  /** The keys listed under one group key. */
  function Under(groups: seq<Group>, k: GroupKey): seq<KeyData> {
    if groups == [] then [] else (if groups[0].key == k then groups[0].keys else []) + Under(groups[1..], k)
  }

  predicate Distinct(groups: seq<Group>) {
    forall i, j :: 0 <= i < j < |groups| ==> groups[i].key != groups[j].key
  }

  lemma DistinctTail(groups: seq<Group>)
    requires Distinct(groups) && groups != []
    ensures Distinct(groups[1..])
    ensures forall j :: 0 <= j < |groups[1..]| ==> groups[1..][j].key != groups[0].key
  {
  }

  lemma DistinctCons(g: Group, rest: seq<Group>)
    requires Distinct(rest) && forall j :: 0 <= j < |rest| ==> rest[j].key != g.key
    ensures Distinct([g] + rest)
  {
  }

  lemma {:induction false} NothingUnder(groups: seq<Group>, k: GroupKey)
    requires forall i :: 0 <= i < |groups| ==> groups[i].key != k
    ensures Under(groups, k) == []
  {
    if groups != [] {
      NothingUnder(groups[1..], k);
    }
  }

  lemma {:induction false} FlattenAdds(groups: seq<Group>, r: Row)
    ensures multiset(Flatten(AddRow(groups, r))) == multiset(Flatten(groups)) + multiset{KeyOf(r)}
  {
    if groups != [] && groups[0].key != GroupOf(r) {
      FlattenAdds(groups[1..], r);
      assert AddRow(groups, r)[1..] == AddRow(groups[1..], r);
    } else if groups != [] {
      assert AddRow(groups, r)[1..] == groups[1..];
    }
  }

  ghost predicate HasKey(groups: seq<Group>, k: GroupKey) {
    exists i :: 0 <= i < |groups| && groups[i].key == k
  }

  lemma HasKeyAtFrontOrLater(groups: seq<Group>, k: GroupKey)
    requires groups != []
    ensures HasKey(groups, k) <==> groups[0].key == k || HasKey(groups[1..], k)
  {
    if i :| 1 <= i < |groups| && groups[i].key == k {
      assert groups[1..][i - 1].key == k;
    }
    if i :| 0 <= i < |groups[1..]| && groups[1..][i].key == k {
      assert groups[i + 1].key == k;
    }
  }

  lemma {:induction false} KeysAfterAdding(groups: seq<Group>, r: Row, k: GroupKey)
    ensures HasKey(AddRow(groups, r), k) <==> HasKey(groups, k) || k == GroupOf(r)
  {
    var all := AddRow(groups, r);
    HasKeyAtFrontOrLater(all, k);
    if groups != [] {
      HasKeyAtFrontOrLater(groups, k);
      assert all[0].key == groups[0].key;
      if groups[0].key != GroupOf(r) {
        KeysAfterAdding(groups[1..], r, k);
        assert all[1..] == AddRow(groups[1..], r);
      } else {
        assert all[1..] == groups[1..];
      }
    }
  }

  lemma {:induction false} StaysDistinct(groups: seq<Group>, r: Row)
    requires Distinct(groups)
    ensures Distinct(AddRow(groups, r))
  {
    if groups != [] && groups[0].key != GroupOf(r) {
      DistinctTail(groups);
      StaysDistinct(groups[1..], r);
      KeysAfterAdding(groups[1..], r, groups[0].key);
      DistinctCons(groups[0], AddRow(groups[1..], r));
    } else if groups != [] {
      assert forall i :: 0 <= i < |groups| ==> AddRow(groups, r)[i].key == groups[i].key;
    }
  }

  lemma {:induction false} UnderAdds(groups: seq<Group>, r: Row, k: GroupKey)
    requires Distinct(groups)
    ensures Under(AddRow(groups, r), k) == Under(groups, k) + if k == GroupOf(r) then [KeyOf(r)] else []
  {
    if groups != [] {
      DistinctTail(groups);
      if groups[0].key != GroupOf(r) {
        UnderAdds(groups[1..], r, k);
        assert AddRow(groups, r)[1..] == AddRow(groups[1..], r);
      } else {
        assert AddRow(groups, r)[1..] == groups[1..];
        if k == groups[0].key {
          NothingUnder(groups[1..], k);
        }
      }
    }
  }

  /** Each row is listed exactly once over the groups; no two groups share a key; and a group lists the
      rows of its mnemonic (or the one bare key) in table order. */
  lemma {:induction false} EveryRowIsListedOnce(rows: seq<Row>, k: GroupKey)
    ensures multiset(Flatten(GroupRows(rows))) == multiset(KeysOf(rows))
    ensures Distinct(GroupRows(rows))
    ensures Under(GroupRows(rows), k) == KeysOf(Keep(rows, GroupedUnder(k)))
  {
    hide AddRow, Flatten, Under, Distinct;
    var p := GroupedUnder(k);
    if rows == [] {
      NothingListed(k);
    } else {
      var front, last := rows[..|rows| - 1], rows[|rows| - 1];
      EveryRowIsListedOnce(front, k);
      FlattenAdds(GroupRows(front), last);
      StaysDistinct(GroupRows(front), last);
      UnderAdds(GroupRows(front), last, k);
      if p(last) {
        KeysOneMore(Keep(front, p), last);
      } else {
        assert Keep(rows, p) == Keep(front, p);
      }
    }
  }

  lemma NothingListed(k: GroupKey)
    ensures Flatten([]) == [] && Under([], k) == [] && Distinct([])
  {
  }

  lemma KeysOneMore(rows: seq<Row>, r: Row)
    ensures KeysOf(rows + [r]) == KeysOf(rows) + [KeyOf(r)]
  {
    assert (rows + [r])[..|rows|] == rows;
  }

  // ---- the two steps ---------------------------------------------------------------------

  function RowsOf(wallets: seq<Row>, user: string, item: Item): seq<Row> {
    Keep(wallets, SelectedBy(user, item))
  }

  /** The containers of an export, or None when some item selects nothing. */
  function Export(wallets: seq<Row>, user: string, info: seq<Item>): Option<seq<Container>> {
    if info == [] then Some([])
    else
      var last := info[|info| - 1];
      var front := Export(wallets, user, info[..|info| - 1]);
      if front.None? || RowsOf(wallets, user, last) == [] then None
      else Some(front.value + [Container(last.walletId, GroupRows(RowsOf(wallets, user, last)))])
  }

  function Initiate(v: Vault, sessionId: string, user: string, info: seq<Item>, expiresAt: int)
    : (Vault, Option<seq<Container>>)
  {
    var containers := Export(v.wallets, user, info);
    if info == [] || containers.None? then (v, None)
    else (v.(sessions := v.sessions[sessionId := Session(user, info, expiresAt)]), containers)
  }

  predicate Live(v: Vault, sessionId: string, now: int) {
    sessionId in v.sessions && v.sessions[sessionId].expiresAt > now
  }

  function Confirm(v: Vault, sessionId: string, now: int): (Vault, Option<nat>) {
    if !Live(v, sessionId, now) then (v, None)
    else
      var s := v.sessions[sessionId];
      var left := Keep(v.wallets, Not(SelectedByOneOf(s.user, s.info)));
      assert |left| <= |v.wallets| by {
        if v.wallets != [] {
          KeptRows(v.wallets, Not(SelectedByOneOf(s.user, s.info)), v.wallets[0]);
        }
      }
      (Vault(left, v.sessions - {sessionId}), Some(|v.wallets| - |left|))
  }

  // ---- export and confirm agree ----------------------------------------------------------

  /** The entry carries the chain, coin type, address, private key and path of this row. */
  predicate Shows(d: KeyData, r: Row) {
    && d.chainId == r.chainId && d.coinType == r.coinType
    && d.address == r.address && d.privateKey == r.privateKey && d.path == r.path
  }

  /** The group of this row's mnemonic, or of its own address and chain when it has none. */
  predicate Groups(k: GroupKey, r: Row) {
    match r.mnemonic
    case Some(text) => k == OfMnemonic(text)
    case None => k == OfKey(r.address, r.chainId)
  }

  ghost predicate Lists(groups: seq<Group>, r: Row) {
    exists g, d :: g in groups && d in g.keys && Groups(g.key, r) && Shows(d, r)
  }

  /** A container of the export lists this row, under its wallet and its mnemonic. */
  ghost predicate Exported(containers: seq<Container>, r: Row) {
    exists i :: 0 <= i < |containers| && containers[i].walletId == r.walletId && Lists(containers[i].groups, r)
  }

  lemma {:induction false} InUnder(groups: seq<Group>, k: GroupKey, d: KeyData)
    ensures d in Under(groups, k) <==> exists g :: g in groups && g.key == k && d in g.keys
  {
    if groups != [] {
      InUnder(groups[1..], k, d);
      assert groups == [groups[0]] + groups[1..];
      assert forall g :: g in groups <==> g == groups[0] || g in groups[1..];
    }
  }

  lemma ListsIff(groups: seq<Group>, r: Row)
    ensures Lists(groups, r) <==> KeyOf(r) in Under(groups, GroupOf(r))
  {
    InUnder(groups, GroupOf(r), KeyOf(r));
    if g :| g in groups && g.key == GroupOf(r) && KeyOf(r) in g.keys {
      assert Groups(g.key, r) && Shows(KeyOf(r), r);
    }
    if g, d :| g in groups && d in g.keys && Groups(g.key, r) && Shows(d, r) {
      assert g.key == GroupOf(r) && d == KeyOf(r);
    }
  }

  lemma {:induction false} InKeys(rows: seq<Row>, d: KeyData)
    ensures d in KeysOf(rows) <==> exists i :: 0 <= i < |rows| && KeyOf(rows[i]) == d
  {
    if rows != [] {
      var front, last := rows[..|rows| - 1], rows[|rows| - 1];
      InKeys(front, d);
      assert forall i :: 0 <= i < |front| ==> rows[i] == front[i];
    }
  }

  predicate SameKey(a: Row, b: Row) {
    a.user == b.user && a.chainId == b.chainId && a.address == b.address
  }

  /** The key (user, chain, address) identifies a row. */
  ghost predicate UniqueRows(wallets: seq<Row>) {
    forall a, b :: a in wallets && b in wallets && SameKey(a, b) ==> a == b
  }

  lemma ItemListsItsRows(wallets: seq<Row>, user: string, item: Item, r: Row)
    requires UniqueRows(wallets) && r in wallets && r.user == user
    ensures Lists(GroupRows(RowsOf(wallets, user, item)), r) <==> Selected(user, item, r)
  {
    hide GroupRows, Under, Keep, Selected, UniqueRows, Lists;
    ListsIff(GroupRows(RowsOf(wallets, user, item)), r);
    var rows := RowsOf(wallets, user, item);
    var p, g := SelectedBy(user, item), GroupedUnder(GroupOf(r));
    EveryRowIsListedOnce(rows, GroupOf(r));
    InKeys(Keep(rows, g), KeyOf(r));
    KeptRows(wallets, p, r);
    KeptRows(rows, g, r);
    if i :| 0 <= i < |Keep(rows, g)| && KeyOf(Keep(rows, g)[i]) == KeyOf(r) {
      var s := Keep(rows, g)[i];
      KeptRows(rows, g, s);
      KeptRows(wallets, p, s);
      SelectedIsOfUser(user, item, s);
      KeyIdentifiesRow(wallets, r, s);
    }
  }

  lemma SelectedIsOfUser(user: string, item: Item, r: Row)
    requires Selected(user, item, r)
    ensures r.user == user
  {
  }

  lemma KeyIdentifiesRow(wallets: seq<Row>, a: Row, b: Row)
    requires UniqueRows(wallets) && a in wallets && b in wallets && a.user == b.user && KeyOf(a) == KeyOf(b)
    ensures a == b
  {
    assert SameKey(a, b);
  }

  lemma {:induction false} ExportListsWhatIsSelected(wallets: seq<Row>, user: string, info: seq<Item>, r: Row)
    requires UniqueRows(wallets) && Export(wallets, user, info).Some?
    requires r in wallets && r.user == user
    ensures Exported(Export(wallets, user, info).value, r) <==> SelectedByAny(user, info, r)
  {
    hide MatchesAny, GroupRows, Lists, RowsOf, UniqueRows;
    var all := Export(wallets, user, info).value;
    if info != [] {
      var front, last := info[..|info| - 1], info[|info| - 1];
      var before := Export(wallets, user, front).value;
      ExportListsWhatIsSelected(wallets, user, front, r);
      ItemListsItsRows(wallets, user, last, r);
      assert forall i :: 0 <= i < |front| ==> info[i] == front[i];
      assert forall i :: 0 <= i < |before| ==> all[i] == before[i];
      assert all[|before|].walletId == last.walletId;
    }
  }

  /** Confirming removes exactly the rows that are selected now, counts each of them once, leaves all
      others alone, ends the session, and so can be done once. */
  lemma ConfirmRemovesTheSelected(v: Vault, sessionId: string, now: int, later: int, r: Row)
    ensures Confirm(v, sessionId, now).1.Some? <==> Live(v, sessionId, now)
    ensures Live(v, sessionId, now) ==>
      var next := Confirm(v, sessionId, now).0; var s := v.sessions[sessionId];
      && (r in next.wallets <==> r in v.wallets && !SelectedByAny(s.user, s.info, r))
      && Confirm(v, sessionId, now).1.value + |next.wallets| == |v.wallets|
      && Confirm(next, sessionId, later).1.None?
      && (forall other :: other != sessionId ==> (other in next.sessions <==> other in v.sessions))
  {
    if Live(v, sessionId, now) {
      var s := v.sessions[sessionId];
      KeptRows(v.wallets, Not(SelectedByOneOf(s.user, s.info)), r);
    }
  }

  /** Export, then anything, then confirm. The rows deleted are all rows that were exported, if and only
      if no row that the export selects was inserted in between; and when the table is unchanged the rows
      deleted are exactly the ones exported. */
  lemma ConfirmDeletesWhatWasExported(before: Vault, sessionId: string, user: string, info: seq<Item>, expiresAt: int,
                                      wallets: seq<Row>, now: int)
    requires UniqueRows(before.wallets) && Initiate(before, sessionId, user, info, expiresAt).1.Some? && now < expiresAt
    ensures
      var (started, containers) := Initiate(before, sessionId, user, info, expiresAt);
      var after := Confirm(Vault(wallets, started.sessions), sessionId, now).0.wallets;
      && ((forall r :: r in wallets && r !in after ==> r in before.wallets && Exported(containers.value, r))
          <==> (forall r :: r in wallets && SelectedByAny(user, info, r) ==> r in before.wallets))
      && (wallets == before.wallets ==>
            forall r :: r in wallets && r.user == user ==> (r !in after <==> Exported(containers.value, r)))
  {
    var (started, containers) := Initiate(before, sessionId, user, info, expiresAt);
    var v := Vault(wallets, started.sessions);
    var after := Confirm(v, sessionId, now).0.wallets;
    forall r | r in wallets ensures r in after <==> !SelectedByAny(user, info, r) {
      ConfirmRemovesTheSelected(v, sessionId, now, now, r);
    }
    forall r | r in before.wallets && r.user == user
      ensures Exported(containers.value, r) <==> SelectedByAny(user, info, r)
    {
      ExportListsWhatIsSelected(before.wallets, user, info, r);
    }
  }
}
