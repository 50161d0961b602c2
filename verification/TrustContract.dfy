/** The storage of WalletTrustContract.sol: the two whitelists, each an array with a membership flag and an
    index per key, and the append-only revocation lists. A mapping is a map whose missing keys read as
    false, zero or the empty list; a call that reverts returns false and changes nothing. */
module TrustContract {

  // ---- whitelists ------------------------------------------------------------------------

  /** An array element; the platform list carries no details beside its key. */
  datatype Entry<K, V> = Entry(key: K, details: V)

  datatype Whitelist<K, V> = Whitelist(flag: map<K, bool>, index: map<K, nat>, items: seq<Entry<K, V>>)

  predicate Flagged<K(==), V>(w: Whitelist<K, V>, k: K) {
    k in w.flag && w.flag[k]
  }

  function IndexOf<K(==), V>(w: Whitelist<K, V>, k: K): nat {
    if k in w.index then w.index[k] else 0
  }

  function Add<K(==), V>(w: Whitelist<K, V>, k: K, details: V): Whitelist<K, V> {
    Whitelist(w.flag[k := true], w.index[k := |w.items|], w.items + [Entry(k, details)])
  }

  /** Swap and pop: the last element takes the place of the one removed. An index out of range reverts. */
  function Remove<K(==), V>(w: Whitelist<K, V>, k: K): Whitelist<K, V> {
    var i, last := IndexOf(w, k), |w.items| - 1;
    if i > last then w
    else if i == last then Whitelist(w.flag[k := false], w.index - {k}, w.items[..last])
    else
      var moved := w.items[last];
      Whitelist(w.flag[k := false], w.index[moved.key := i] - {k}, w.items[i := moved][..last])
  }

  /** The three structures stand for one table of members: flags say who is one, the array lists each once
      with its details, and the index finds each in the array. */
  ghost predicate StandsFor<K(!new), V(!new)>(w: Whitelist<K, V>, members: map<K, V>) {
    && (forall k :: Flagged(w, k) <==> k in members)
    && (forall i :: 0 <= i < |w.items| ==>
          && w.items[i].key in members && members[w.items[i].key] == w.items[i].details
          && IndexOf(w, w.items[i].key) == i)
    && (forall k :: k in members ==> IndexOf(w, k) < |w.items| && w.items[IndexOf(w, k)].key == k)
  }

  lemma AddRefines<K(!new), V(!new)>(w: Whitelist<K, V>, members: map<K, V>, k: K, details: V)
    requires StandsFor(w, members) && k !in members
    ensures StandsFor(Add(w, k, details), members[k := details])
  {
  }

  lemma RemoveRefines<K(!new), V(!new)>(w: Whitelist<K, V>, members: map<K, V>, k: K)
    requires StandsFor(w, members) && k in members
    ensures StandsFor(Remove(w, k), members - {k})
  {
    var next := Remove(w, k);
    var i, last := IndexOf(w, k), |w.items| - 1;
    forall j | 0 <= j < |next.items| ensures next.items[j].key != k && IndexOf(next, next.items[j].key) == j {
      assert next.items[j] == w.items[if j == i then last else j];
      assert IndexOf(w, w.items[j].key) == j && IndexOf(w, w.items[last].key) == last;
    }
    forall m | m in members && m != k ensures IndexOf(next, m) < |next.items| && next.items[IndexOf(next, m)].key == m {
      assert IndexOf(w, m) != i;
    }
  }

  /** A call by some sender; `invalid` is the zero key. */
  datatype Call<K, V> = Adding(owner: bool, key: K, details: V) | Removing(owner: bool, key: K)

  predicate Accepted<K(==), V>(w: Whitelist<K, V>, c: Call<K, V>, zero: K) {
    match c
    case Adding(owner, k, _) => owner && k != zero && !Flagged(w, k)
    case Removing(owner, k) => owner && Flagged(w, k)
  }

  function Apply<K(==), V>(w: Whitelist<K, V>, c: Call<K, V>, zero: K): Whitelist<K, V> {
    if !Accepted(w, c, zero) then w
    else match c
      case Adding(_, k, details) => Add(w, k, details)
      case Removing(_, k) => Remove(w, k)
  }

  function Run<K(==), V>(calls: seq<Call<K, V>>, zero: K): Whitelist<K, V> {
    if calls == [] then Whitelist(map[], map[], []) else Apply(Run(calls[..|calls| - 1], zero), calls[|calls| - 1], zero)
  }

  /** The same calls on the table of members. */
  function ApplyToMembers<K(==), V>(members: map<K, V>, c: Call<K, V>, zero: K): map<K, V> {
    match c
    case Adding(owner, k, details) => if owner && k != zero && k !in members then members[k := details] else members
    case Removing(owner, k) => if owner then members - {k} else members
  }

  function Members<K(==), V>(calls: seq<Call<K, V>>, zero: K): map<K, V> {
    if calls == [] then map[]
    else ApplyToMembers(Members(calls[..|calls| - 1], zero), calls[|calls| - 1], zero)
  }

  lemma CallRefines<K(!new), V(!new)>(w: Whitelist<K, V>, members: map<K, V>, c: Call<K, V>, zero: K)
    requires StandsFor(w, members)
    ensures Accepted(w, c, zero) && c.Removing? ==> IndexOf(w, c.key) < |w.items|
    ensures StandsFor(Apply(w, c, zero), ApplyToMembers(members, c, zero))
  {
    if Accepted(w, c, zero) {
      match c
      case Adding(_, k, details) => AddRefines(w, members, k, details);
      case Removing(_, k) => RemoveRefines(w, members, k);
    } else if c.Removing? && c.owner {
      assert members - {c.key} == members;
    }
  }

  /** Over every run of adds and removes, by owners and others, the storage stands for the plain table that
      the same calls build. */
  lemma {:induction false} EveryRunRefines<K(!new), V(!new)>(calls: seq<Call<K, V>>, zero: K)
    ensures StandsFor(Run(calls, zero), Members(calls, zero))
  {
    if calls != [] {
      var front := calls[..|calls| - 1];
      EveryRunRefines(front, zero);
      CallRefines(Run(front, zero), Members(front, zero), calls[|calls| - 1], zero);
    }
  }

  /** The array lists every member once and nothing else. */
  lemma ArrayListsMembersOnce<K(!new), V(!new)>(w: Whitelist<K, V>, members: map<K, V>)
    requires StandsFor(w, members)
    ensures forall i, j :: 0 <= i < j < |w.items| ==> w.items[i].key != w.items[j].key
    ensures forall k, v :: Entry(k, v) in w.items <==> k in members && members[k] == v
  {
    forall k, v ensures Entry(k, v) in w.items <==> k in members && members[k] == v {
      if k in members {
        assert w.items[IndexOf(w, k)].details == members[k];
      }
    }
  }

  class WhitelistStorage<K(==,!new), V(!new)> {
    const zero: K
    var flag: map<K, bool>
    var index: map<K, nat>
    var items: seq<Entry<K, V>>
    ghost var calls: seq<Call<K, V>>

    constructor (zero: K)
      ensures Valid() && calls == [] && this.zero == zero
    {
      this.zero := zero;
      flag, index, items := map[], map[], [];
      calls := [];
    }

    ghost function List(): Whitelist<K, V>
      reads this
    {
      Whitelist(flag, index, items)
    }

    /** After all calls so far, the storage stands for what the same calls make of a plain table. */
    ghost predicate Valid()
      reads this
    {
      StandsFor(List(), Members(calls, zero))
    }

    method AddEntry(owner: bool, key: K, details: V) returns (ok: bool)
      requires Valid()
      modifies this
      ensures Valid() && calls == old(calls) + [Adding(owner, key, details)]
      ensures ok <==> owner && key != zero && key !in Members(old(calls), zero)
      ensures !ok ==> List() == old(List())
    {
      ghost var c := Adding(owner, key, details);
      CallRefines(List(), Members(calls, zero), c, zero);
      assert (calls + [c])[..|calls|] == calls;
      calls := calls + [c];
      ok := owner && key != zero && !(key in flag && flag[key]);
      if ok {
        flag := flag[key := true];
        index := index[key := |items|];
        items := items + [Entry(key, details)];
      }
    }

    method RemoveEntry(owner: bool, key: K) returns (ok: bool)
      requires Valid()
      modifies this
      ensures Valid() && calls == old(calls) + [Removing(owner, key)]
      ensures ok <==> owner && key in Members(old(calls), zero)
      ensures !ok ==> List() == old(List())
    {
      hide Remove;
      ghost var c := Removing(owner, key);
      CallRefines(List(), Members(calls, zero), c, zero);
      assert (calls + [c])[..|calls|] == calls;
      calls := calls + [c];
      ok := owner && key in flag && flag[key];
      if ok {
        SwapAndPop(key);
      }
    }

    method SwapAndPop(key: K)
      requires IndexOf(List(), key) < |items|
      modifies `flag, `index, `items
      ensures List() == Remove(old(List()), key)
    {
      flag := flag[key := false];
      var at := if key in index then index[key] else 0;
      var lastIndex := |items| - 1;
      if at != lastIndex {
        var lastItem := items[lastIndex];
        items := items[at := lastItem];
        index := index[lastItem.key := at];
      }
      items := items[..lastIndex];
      index := index - {key};
    }
  }

  // ---- revocations -----------------------------------------------------------------------

  datatype Record = Record(authorizationId: string, grantee: string, revokedAt: nat)

  datatype Ledger = Ledger(revoked: map<(string, string), bool>, records: map<string, seq<Record>>)

  const EMPTY_LEDGER := Ledger(map[], map[])

  /** `valid` is the verdict on the P256 signature over user, authorization and grantee. */
  datatype Revocation = Revocation(user: string, auth: string, grantee: string, valid: bool, timestamp: nat)

  const ZERO_ADDRESS := "0x0000000000000000000000000000000000000000"

  predicate IsRevoked(l: Ledger, user: string, auth: string) {
    (user, auth) in l.revoked && l.revoked[(user, auth)]
  }

  function RecordsOf(l: Ledger, user: string): seq<Record> {
    if user in l.records then l.records[user] else []
  }

  predicate RevocationAccepted(l: Ledger, r: Revocation) {
    r.user != "" && r.auth != "" && r.grantee != ZERO_ADDRESS && !IsRevoked(l, r.user, r.auth) && r.valid
  }

  function Revoke(l: Ledger, r: Revocation): Ledger {
    if !RevocationAccepted(l, r) then l
    else Ledger(l.revoked[(r.user, r.auth) := true],
                l.records[r.user := RecordsOf(l, r.user) + [Record(r.auth, r.grantee, r.timestamp)]])
  }

  function RevokeAll(l: Ledger, calls: seq<Revocation>): Ledger {
    if calls == [] then l else Revoke(RevokeAll(l, calls[..|calls| - 1]), calls[|calls| - 1])
  }

  function Occurrences(records: seq<Record>, auth: string): nat {
    if records == [] then 0
    else Occurrences(records[..|records| - 1], auth) + (if records[|records| - 1].authorizationId == auth then 1 else 0)
  }

  /** One record for a revoked id, none for any other. */
  ghost predicate OneRecordEach(l: Ledger) {
    forall user, auth :: OneRecord(l, user, auth)
  }

  lemma OneMoreRecord(records: seq<Record>, r: Record, auth: string)
    ensures Occurrences(records + [r], auth) == Occurrences(records, auth) + (if r.authorizationId == auth then 1 else 0)
  {
    assert (records + [r])[..|records|] == records;
  }

  /** Over any calls each user's list only grows at its end, and it holds exactly one record for every
      authorization revoked and none for the others; no revocation is ever taken back. */
  lemma {:induction false} RevocationListsAreAppendOnly(l: Ledger, calls: seq<Revocation>, user: string, auth: string)
    requires OneRecordEach(l)
    ensures OneRecordEach(RevokeAll(l, calls))
    ensures RecordsOf(l, user) <= RecordsOf(RevokeAll(l, calls), user)
    ensures IsRevoked(l, user, auth) ==> IsRevoked(RevokeAll(l, calls), user, auth)
  {
    hide OneRecordEach;
    if calls != [] {
      var front, r := calls[..|calls| - 1], calls[|calls| - 1];
      var before := RevokeAll(l, front);
      RevocationListsAreAppendOnly(l, front, user, auth);
      OneRevocationKeepsOneRecordEach(before, r);
      assert RecordsOf(before, user) <= RecordsOf(Revoke(before, r), user);
    }
  }

  /** The list of one user and the flag of one id agree. */
  predicate OneRecord(l: Ledger, user: string, auth: string) {
    Occurrences(RecordsOf(l, user), auth) == if IsRevoked(l, user, auth) then 1 else 0
  }

  lemma OneRevocationKeepsOneRecord(l: Ledger, r: Revocation, user: string, auth: string)
    requires OneRecord(l, user, auth)
    ensures OneRecord(Revoke(l, r), user, auth)
  {
    hide Occurrences;
    if RevocationAccepted(l, r) && user == r.user {
      OneMoreRecord(RecordsOf(l, user), Record(r.auth, r.grantee, r.timestamp), auth);
    }
  }

  lemma OneRevocationKeepsOneRecordEach(l: Ledger, r: Revocation)
    requires OneRecordEach(l)
    ensures OneRecordEach(Revoke(l, r))
  {
    hide Revoke, OneRecord;
    forall user, auth ensures OneRecord(Revoke(l, r), user, auth) {
      OneRevocationKeepsOneRecord(l, r, user, auth);
    }
  }

  /** The first valid call for an authorization puts it on the list with that call's grantee and time;
      a second is refused. */
  lemma RevokedOnce(l: Ledger, r: Revocation, again: Revocation)
    requires RevocationAccepted(l, r) && again.user == r.user && again.auth == r.auth
    ensures IsRevoked(Revoke(l, r), r.user, r.auth)
    ensures RecordsOf(Revoke(l, r), r.user) == RecordsOf(l, r.user) + [Record(r.auth, r.grantee, r.timestamp)]
    ensures Revoke(Revoke(l, r), again) == Revoke(l, r)
  {
  }

  /** A call the contract takes, on its own: the user, the authorization and the grantee are given, and the
      signature holds. */
  predicate WellFormed(r: Revocation) {
    r.user != "" && r.auth != "" && r.grantee != "0x0000000000000000000000000000000000000000" && r.valid
  }

  /** The first well-formed call for an authorization. */
  ghost predicate FirstFor(calls: seq<Revocation>, user: string, auth: string, i: int) {
    && 0 <= i < |calls| && calls[i].user == user && calls[i].auth == auth && WellFormed(calls[i])
    && forall j :: 0 <= j < i && calls[j].user == user && calls[j].auth == auth ==> !WellFormed(calls[j])
  }

  ghost predicate SomeFor(calls: seq<Revocation>, user: string, auth: string) {
    exists i :: FirstFor(calls, user, auth, i)
  }

  /** It is what the contract has on the user's list for the authorization. */
  ghost predicate RecordedFirst(calls: seq<Revocation>, user: string, entry: Record) {
    exists i :: FirstFor(calls, user, entry.authorizationId, i)
             && entry.grantee == calls[i].grantee && entry.revokedAt == calls[i].timestamp
  }

  lemma {:induction false} SomeIsFirst(calls: seq<Revocation>, user: string, auth: string, j: nat)
    requires j < |calls| && calls[j].user == user && calls[j].auth == auth && WellFormed(calls[j])
    ensures SomeFor(calls, user, auth)
  {
    hide WellFormed;
    if i :| 0 <= i < j && calls[i].user == user && calls[i].auth == auth && WellFormed(calls[i]) {
      SomeIsFirst(calls, user, auth, i);
    } else {
      assert FirstFor(calls, user, auth, j);
    }
  }

  /** A later call is the first only if there was none. */
  lemma FirstOfMore(calls: seq<Revocation>, r: Revocation, user: string, auth: string, i: int)
    ensures FirstFor(calls + [r], user, auth, i) <==>
      || FirstFor(calls, user, auth, i)
      || (i == |calls| && r.user == user && r.auth == auth && WellFormed(r) && !SomeFor(calls, user, auth))
  {
    hide WellFormed;
    var more := calls + [r];
    assert forall j :: 0 <= j < |calls| ==> more[j] == calls[j];
    assert more[|calls|] == r;
    if FirstFor(more, user, auth, |calls|) {
      forall k ensures !FirstFor(calls, user, auth, k) {
        assert 0 <= k < |calls| ==> more[k] == calls[k];
      }
    }
    forall j | 0 <= j < |calls| && calls[j].user == user && calls[j].auth == auth && WellFormed(calls[j])
      ensures SomeFor(calls, user, auth)
    {
      SomeIsFirst(calls, user, auth, j);
    }
  }

  lemma SomeOfMore(calls: seq<Revocation>, r: Revocation, user: string, auth: string)
    ensures SomeFor(calls + [r], user, auth) <==>
      SomeFor(calls, user, auth) || (r.user == user && r.auth == auth && WellFormed(r))
  {
    hide FirstFor, WellFormed;
    forall i ensures FirstFor(calls + [r], user, auth, i) <==>
      || FirstFor(calls, user, auth, i)
      || (i == |calls| && r.user == user && r.auth == auth && WellFormed(r) && !SomeFor(calls, user, auth))
    {
      FirstOfMore(calls, r, user, auth, i);
    }
    if i :| FirstFor(calls, user, auth, i) {
      assert FirstFor(calls + [r], user, auth, i);
    }
    assert r.user == user && r.auth == auth && WellFormed(r) && !SomeFor(calls, user, auth) ==>
        FirstFor(calls + [r], user, auth, |calls|);
  }

  lemma RecordedOfMore(calls: seq<Revocation>, r: Revocation, user: string, entry: Record)
    ensures RecordedFirst(calls + [r], user, entry) <==>
      || RecordedFirst(calls, user, entry)
      || (r.user == user && WellFormed(r) && !SomeFor(calls, user, r.auth) && entry == Record(r.auth, r.grantee, r.timestamp))
  {
    hide WellFormed, SomeFor;
    var more, auth := calls + [r], entry.authorizationId;
    forall i ensures FirstFor(more, user, auth, i) <==>
      || FirstFor(calls, user, auth, i)
      || (i == |calls| && r.user == user && r.auth == auth && WellFormed(r) && !SomeFor(calls, user, auth))
    {
      FirstOfMore(calls, r, user, auth, i);
    }
    assert forall j :: 0 <= j < |calls| ==> more[j] == calls[j];
    if i :| FirstFor(calls, user, auth, i) && entry.grantee == calls[i].grantee && entry.revokedAt == calls[i].timestamp {
      assert FirstFor(more, user, auth, i);
    }
    assert r.user == user && r.auth == auth && WellFormed(r) && !SomeFor(calls, user, auth) ==> FirstFor(more, user, auth, |calls|);
  }

  /** Over any calls to a new contract, an authorization is revoked exactly if one of them for it was
      well-formed, and what is on its user's list are the first such calls, with their grantee and time. */
  lemma {:induction false} RevokedByItsFirstCall(calls: seq<Revocation>, user: string)
    ensures forall auth :: IsRevoked(RevokeAll(EMPTY_LEDGER, calls), user, auth) <==> SomeFor(calls, user, auth)
    ensures forall entry :: entry in RecordsOf(RevokeAll(EMPTY_LEDGER, calls), user) <==> RecordedFirst(calls, user, entry)
  {
    hide FirstFor, SomeFor, RecordedFirst;
    if calls == [] {
      NoFirstCall(user);
    } else {
      var front, r := calls[..|calls| - 1], calls[|calls| - 1];
      assert calls == front + [r];
      RevokedByItsFirstCall(front, user);
      forall auth ensures IsRevoked(RevokeAll(EMPTY_LEDGER, calls), user, auth) <==> SomeFor(calls, user, auth) {
        SomeOfMore(front, r, user, auth);
      }
      forall entry ensures entry in RecordsOf(RevokeAll(EMPTY_LEDGER, calls), user) <==> RecordedFirst(calls, user, entry) {
        RecordedOfMore(front, r, user, entry);
      }
    }
  }

  lemma NoFirstCall(user: string)
    ensures forall auth :: !SomeFor([], user, auth)
    ensures forall entry :: !RecordedFirst([], user, entry)
  {
  }

  class RevocationRegistry {
    var revoked: map<(string, string), bool>
    var records: map<string, seq<Record>>

    constructor ()
      ensures Contents() == EMPTY_LEDGER
    {
      revoked, records := map[], map[];
    }

    ghost function Contents(): Ledger
      reads this
    {
      Ledger(revoked, records)
    }

    method RevokeAuthorization(r: Revocation) returns (ok: bool)
      modifies this
      ensures Contents() == Revoke(old(Contents()), r)
      ensures ok <==> RevocationAccepted(old(Contents()), r)
    {
      if r.user == "" || r.auth == "" || r.grantee == ZERO_ADDRESS {
        return false;
      }
      if (r.user, r.auth) in revoked && revoked[(r.user, r.auth)] {
        return false;
      }
      if !r.valid {
        return false;
      }
      revoked := revoked[(r.user, r.auth) := true];
      var list := if r.user in records then records[r.user] else [];
      records := records[r.user := list + [Record(r.auth, r.grantee, r.timestamp)]];
      return true;
    }
  }
}
