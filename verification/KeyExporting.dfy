/** The exporter of key-export.js as it runs: row by row, item by item, over its two tables. */
module KeyExporting {
  import opened Tables
  import opened KeyExport
  import ExportLaws

  lemma {:induction false} AddRowAt(groups: seq<Group>, r: Row, i: nat)
    requires i <= |groups| && (forall j :: 0 <= j < i ==> groups[j].key != GroupOf(r))
    requires i < |groups| ==> groups[i].key == GroupOf(r)
    ensures AddRow(groups, r) ==
      if i == |groups| then groups + [Group(GroupOf(r), r.walletType, [KeyOf(r)])]
      else groups[i := groups[i].(keys := groups[i].keys + [KeyOf(r)])]
    decreases i
  {
    if i > 0 {
      AddRowAt(groups[1..], r, i - 1);
      assert groups == [groups[0]] + groups[1..];
    } else if groups != [] {
      assert groups == [groups[0]] + groups[1..];
    }
  }

  lemma KeepPrefix(rows: seq<Row>, p: Row -> bool, i: nat)
    requires i < |rows|
    ensures Keep(rows[..i + 1], p) == Keep(rows[..i], p) + if p(rows[i]) then [rows[i]] else []
  {
    assert rows[..i + 1][..i] == rows[..i];
  }

  lemma MatchesAnyUpTo(addresses: seq<Addr>, j: nat, r: Row)
    requires j < |addresses|
    ensures MatchesAny(addresses[..j + 1], r) <==> MatchesAny(addresses[..j], r) || Matches(addresses[j], r)
  {
    if MatchesAny(addresses[..j], r) {
      var i :| 0 <= i < j && Matches(addresses[..j][i], r);
      assert Matches(addresses[..j + 1][i], r);
    }
    if Matches(addresses[j], r) {
      assert Matches(addresses[..j + 1][j], r);
    }
    if MatchesAny(addresses[..j + 1], r) && !Matches(addresses[j], r) {
      var i :| 0 <= i < j + 1 && Matches(addresses[..j + 1][i], r);
      assert Matches(addresses[..j][i], r);
    }
  }

  lemma SelectedUpTo(user: string, info: seq<Item>, i: nat, r: Row)
    requires i < |info|
    ensures SelectedByAny(user, info[..i + 1], r) <==> SelectedByAny(user, info[..i], r) || Selected(user, info[i], r)
  {
    if SelectedByAny(user, info[..i], r) {
      var k :| 0 <= k < i && Selected(user, info[..i][k], r);
      assert Selected(user, info[..i + 1][k], r);
    }
    if Selected(user, info[i], r) {
      assert Selected(user, info[..i + 1][i], r);
    }
    if SelectedByAny(user, info[..i + 1], r) && !Selected(user, info[i], r) {
      var k :| 0 <= k < i + 1 && Selected(user, info[..i + 1][k], r);
      assert Selected(user, info[..i][k], r);
    }
  }

  class KeyExporter {
    var wallets: seq<Row>
    var sessions: map<string, Session>

    constructor ()
      ensures wallets == [] && sessions == map[]
    {
      wallets, sessions := [], map[];
    }

    ghost function Tables(): Vault
      reads this
    {
      Vault(wallets, sessions)
    }

    /** Rows are put under their mnemonic as they come; the groups keep the order of their first rows. */
    method BuildContainerFromRows(walletId: string, rows: seq<Row>) returns (container: Container)
      ensures container == Container(walletId, GroupRows(rows))
      ensures forall r :: r in rows ==> Lists(container.groups, r)
      ensures forall g, d :: g in container.groups && d in g.keys ==> exists r :: r in rows && ExportLaws.EntryOf(g, d, r)
    {
      hide Lists, ExportLaws.EntryOf;
      ExportLaws.RowsAreListed(rows);
      var groups: seq<Group> := [];
      for i := 0 to |rows|
        invariant groups == GroupRows(rows[..i])
      {
        assert rows[..i + 1][..i] == rows[..i];
        var row := rows[i];
        var key := GroupOf(row);
        var at := 0;
        while at < |groups| && groups[at].key != key
          invariant 0 <= at <= |groups|
          invariant forall j :: 0 <= j < at ==> groups[j].key != key
        {
          at := at + 1;
        }
        AddRowAt(groups, row, at);
        if at == |groups| {
          groups := groups + [Group(key, row.walletType, [KeyOf(row)])];
        } else {
          groups := groups[at := groups[at].(keys := groups[at].keys + [KeyOf(row)])];
        }
      }
      assert rows[..|rows|] == rows;
      return Container(walletId, groups);
    }

    method SelectRows(user: string, item: Item) returns (rows: seq<Row>)
      ensures rows == RowsOf(wallets, user, item)
    {
      ghost var p := SelectedBy(user, item);
      rows := [];
      for i := 0 to |wallets|
        invariant rows == Keep(wallets[..i], p)
      {
        KeepPrefix(wallets, p, i);
        var row := wallets[i];
        if OfWallet(user, item.walletId, row) && (item.addresses == [] || MatchesAny(item.addresses, row)) {
          rows := rows + [row];
        }
      }
      assert wallets[..|wallets|] == wallets;
    }

    method InitiateExport(sessionId: string, user: string, info: seq<Item>, now: int, ttl: int)
      returns (containers: Option<seq<Container>>)
      modifies this`sessions
      ensures (Tables(), containers) == Initiate(old(Tables()), sessionId, user, info, now + ttl)
      ensures containers.Some? ==>
        |containers.value| == |info|
        && forall i :: 0 <= i < |info| ==> ExportLaws.ContainerOf(containers.value[i], wallets, user, info[i])
    {
      hide ExportLaws.ContainerOf;
      ExportLaws.InitiateOpensASession(Tables(), sessionId, user, info, now + ttl);
      if info == [] {
        return None;
      }
      var all: seq<Container> := [];
      for i := 0 to |info|
        invariant Export(wallets, user, info[..i]) == Some(all) && sessions == old(sessions)
      {
        assert info[..i + 1][..i] == info[..i];
        var rows := SelectRows(user, info[i]);
        if rows == [] {
          ExportFails(wallets, user, info, i + 1);
          return None;
        }
        var container := BuildContainerFromRows(info[i].walletId, rows);
        all := all + [container];
      }
      assert info[..|info|] == info;
      sessions := sessions[sessionId := Session(user, info, now + ttl)];
      return Some(all);
    }

    /** DELETE FROM wallets WHERE ...; the count is of the rows that were there. */
    method DeleteWhere(p: Row -> bool) returns (changes: nat)
      modifies this`wallets
      ensures wallets == Keep(old(wallets), Not(p))
      ensures changes + |wallets| == |old(wallets)|
    {
      ghost var start := wallets;
      var left: seq<Row> := [];
      changes := 0;
      for i := 0 to |wallets|
        invariant wallets == start
        invariant left == Keep(start[..i], Not(p)) && changes + |left| == i
      {
        KeepPrefix(start, Not(p), i);
        if p(wallets[i]) {
          changes := changes + 1;
        } else {
          left := left + [wallets[i]];
        }
      }
      assert start[..|start|] == start;
      wallets := left;
    }

    /** One item: all rows of the wallet, or address by address; a row that two addresses match is gone
        by the time of the second. */
    method DeleteItem(user: string, item: Item) returns (changes: nat)
      modifies this`wallets
      ensures wallets == Keep(old(wallets), Not(SelectedBy(user, item)))
      ensures changes + |wallets| == |old(wallets)|
    {
      if item.addresses == [] {
        changes := DeleteWhere(r => OfWallet(user, item.walletId, r));
        KeepSame(old(wallets), Not(r => OfWallet(user, item.walletId, r)), Not(SelectedBy(user, item)));
      } else {
        changes := DeleteAddresses(user, item.walletId, item.addresses);
        KeepSame(old(wallets), Not(MatchedBy(user, item.walletId, item.addresses)), Not(SelectedBy(user, item)));
      }
    }

    method DeleteAddresses(user: string, walletId: string, addresses: seq<Addr>) returns (changes: nat)
      modifies this`wallets
      ensures wallets == Keep(old(wallets), Not(MatchedBy(user, walletId, addresses)))
      ensures changes + |wallets| == |old(wallets)|
    {
      hide Keep, OfWallet, Matches, MatchesAny;
      ghost var start := wallets;
      changes := 0;
      NothingMatched(start, user, walletId);
      for j := 0 to |addresses|
        invariant wallets == Keep(start, Not(MatchedBy(user, walletId, addresses[..j])))
        invariant changes + |wallets| == |start|
      {
        var more := DeleteWhere(MatchedByOne(user, walletId, addresses[j]));
        changes := changes + more;
        OneMoreAddress(start, user, walletId, addresses, j);
      }
      assert addresses[..|addresses|] == addresses;
    }

    method ConfirmExport(sessionId: string, now: int) returns (deletedCount: Option<nat>)
      modifies this
      ensures (Tables(), deletedCount) == Confirm(old(Tables()), sessionId, now)
    {
      hide Keep, Selected, SelectedByAny;
      if sessionId !in sessions || sessions[sessionId].expiresAt <= now {
        return None;
      }
      var session := sessions[sessionId];
      var total := DeleteItems(session.user, session.info);
      sessions := sessions - {sessionId};
      return Some(total);
    }

    method DeleteItems(user: string, info: seq<Item>) returns (total: nat)
      modifies this`wallets
      ensures wallets == Keep(old(wallets), Not(SelectedByOneOf(user, info)))
      ensures total + |wallets| == |old(wallets)|
    {
      hide Keep, Selected, SelectedByAny;
      ghost var start := wallets;
      total := 0;
      NothingSelected(start, user);
      for i := 0 to |info|
        invariant wallets == Keep(start, Not(SelectedByOneOf(user, info[..i])))
        invariant total + |wallets| == |start|
      {
        var changes := DeleteItem(user, info[i]);
        total := total + changes;
        OneMoreItem(start, user, info, i);
      }
      assert info[..|info|] == info;
    }
  }

  function MatchedBy(user: string, walletId: string, addresses: seq<Addr>): Row -> bool {
    r => OfWallet(user, walletId, r) && MatchesAny(addresses, r)
  }

  function MatchedByOne(user: string, walletId: string, a: Addr): Row -> bool {
    r => OfWallet(user, walletId, r) && Matches(a, r)
  }

  lemma NothingMatched(rows: seq<Row>, user: string, walletId: string)
    ensures Keep(rows, Not(MatchedBy(user, walletId, []))) == rows
  {
    KeepSame(rows, r => true, Not(MatchedBy(user, walletId, [])));
    KeepAll(rows);
  }

  lemma NothingSelected(rows: seq<Row>, user: string)
    ensures Keep(rows, Not(SelectedByOneOf(user, []))) == rows
  {
    KeepSame(rows, r => true, Not(SelectedByOneOf(user, [])));
    KeepAll(rows);
  }

  lemma OneMoreAddress(rows: seq<Row>, user: string, walletId: string, addresses: seq<Addr>, j: nat)
    requires j < |addresses|
    ensures Keep(Keep(rows, Not(MatchedBy(user, walletId, addresses[..j]))), Not(MatchedByOne(user, walletId, addresses[j])))
         == Keep(rows, Not(MatchedBy(user, walletId, addresses[..j + 1])))
  {
    hide Keep;
    var p, q := Not(MatchedBy(user, walletId, addresses[..j])), Not(MatchedByOne(user, walletId, addresses[j]));
    var both := Not(MatchedBy(user, walletId, addresses[..j + 1]));
    forall r ensures both(r) <==> p(r) && q(r) {
      MatchesAnyUpTo(addresses, j, r);
    }
    KeepTwice(rows, p, q, both);
  }

  lemma OneMoreItem(rows: seq<Row>, user: string, info: seq<Item>, i: nat)
    requires i < |info|
    ensures Keep(Keep(rows, Not(SelectedByOneOf(user, info[..i]))), Not(SelectedBy(user, info[i])))
         == Keep(rows, Not(SelectedByOneOf(user, info[..i + 1])))
  {
    hide Keep;
    var p, q := Not(SelectedByOneOf(user, info[..i])), Not(SelectedBy(user, info[i]));
    var both := Not(SelectedByOneOf(user, info[..i + 1]));
    forall r ensures both(r) <==> p(r) && q(r) {
      SelectedUpTo(user, info, i, r);
    }
    KeepTwice(rows, p, q, both);
  }

  lemma {:induction false} KeepAll(rows: seq<Row>)
    ensures Keep(rows, r => true) == rows
  {
    if rows != [] {
      KeepAll(rows[..|rows| - 1]);
    }
  }

  lemma {:induction false} ExportFails(wallets: seq<Row>, user: string, info: seq<Item>, i: nat)
    requires i <= |info| && Export(wallets, user, info[..i]).None?
    ensures Export(wallets, user, info).None?
    decreases |info| - i
  {
    if i == |info| {
      assert info[..i] == info;
    } else {
      assert info[..i + 1][..i] == info[..i];
      ExportFails(wallets, user, info, i + 1);
    }
  }
}
