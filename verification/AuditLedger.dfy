/**
 The hash-chained audit ledger (src/forest/flight-recorder/audit-ledger.ts): every row stores the hash of the
 row before it, and hashes it together with its own canonical payload. The hash function is a parameter.
 */
module AuditLedger {
  import opened Wrappers
  import opened TextSplit
  import opened Sorting
  import opened JsonText
  import opened CanonicalJson

  datatype AuditEntry =
    AuditEntry(action: string, userId: Option<string>, botId: Option<string>, detailJson: Option<string>)

  datatype Row = Row(prevHash: Option<string>, hash: string, entry: AuditEntry, createdAt: int)

  datatype LedgerTail = LedgerTail(hash: string, prevHash: Option<string>, createdAt: Option<int>)

  type Hash = string -> string

  type Encoding = AuditEntry -> string

  // value ?? ''
  function OrEmpty(value: Option<string>): (text: string)
    ensures value == Some(text) || (value == None && text == "")
  {
    if value.Some? then value.value else ""
  }

  function PayloadValue(e: AuditEntry): Json {
    Obj([Field("action", Str(e.action)), Field("userId", Str(OrEmpty(e.userId))),
         Field("botId", Str(OrEmpty(e.botId))), Field("detailJson", Str(OrEmpty(e.detailJson)))])
  }

  function Payload(before: KeyOrder, e: AuditEntry): string {
    Text(Normal(before, PayloadValue(e)))
  }

  function PayloadOf(before: KeyOrder): Encoding {
    (e: AuditEntry) => Payload(before, e)
  }

  // What computeHash feeds to the digest.
  function HashInput(prevHash: Option<string>, payload: string): string {
    OrEmpty(prevHash) + "\n" + payload
  }

  // The row the query ORDER BY created_at DESC LIMIT 1 may return; among equals any of them.
  ghost predicate Newest(rows: seq<Row>, pick: nat) {
    pick < |rows| && forall i :: 0 <= i < |rows| ==> rows[i].createdAt <= rows[pick].createdAt
  }

  // What the query may return: no row from an empty table.
  ghost predicate Returned(rows: seq<Row>, pick: Option<nat>) {
    if rows == [] then pick == None else pick.Some? && Newest(rows, pick.value)
  }

  // Appending as one step, with the row that the query returned.
  function Appended(hash: Hash, payload: Encoding, rows: seq<Row>, pick: Option<nat>, e: AuditEntry, now: int): seq<Row>
    requires pick.Some? ==> pick.value < |rows|
  {
    var prevHash := if pick.Some? then Some(rows[pick.value].hash) else None;
    rows + [Row(prevHash, hash(HashInput(prevHash, payload(e))), e, now)]
  }

  class AuditLedger {
    const hash: Hash
    const before: KeyOrder
    var rows: seq<Row>

    constructor (hash: Hash, before: KeyOrder)
      ensures this.hash == hash && this.before == before && rows == []
    {
      this.hash, this.before, rows := hash, before, [];
    }

    // Without a database nothing is stored. `pick` is the row the query returns, if there is any.
    method AppendAudit(entry: AuditEntry, database: bool, pick: Option<nat>, now: int) returns (tail: LedgerTail)
      requires Returned(rows, pick)
      modifies this
      ensures rows == if database then Appended(hash, PayloadOf(before), old(rows), pick, entry, now) else old(rows)
      ensures tail == if !database then LedgerTail("", None, None)
        else var row := rows[|rows| - 1]; LedgerTail(row.hash, row.prevHash, Some(row.createdAt))
      ensures database ==>
        var n := |old(rows)|;
        var prevHash := if pick.Some? then old(rows)[pick.value].hash else "";
        && |rows| == n + 1 && rows[..n] == old(rows)
        && rows[n].entry == entry && rows[n].createdAt == now
        && rows[n].prevHash == (if pick.Some? then Some(prevHash) else None)
        && rows[n].hash == hash(prevHash + "\n" + Payload(before, entry))
    {
      if !database {
        return LedgerTail("", None, None);
      }
      var prevHash := if pick.Some? then Some(rows[pick.value].hash) else None;
      var canonicalPayload := Canonicalize(before, PayloadValue(entry));
      var digest := hash(HashInput(prevHash, canonicalPayload.value));
      rows := rows + [Row(prevHash, digest, entry, now)];
      return LedgerTail(digest, prevHash, Some(now));
    }
  }

  // ----- what a ledger built by appends looks like

  ghost function PrevOf(rows: seq<Row>, i: nat): Option<string>
    requires i < |rows|
  {
    if i == 0 then None else Some(rows[i - 1].hash)
  }

  // The text hashed for row i, if it follows the row before it.
  ghost function InputOf(payload: Encoding, rows: seq<Row>, i: nat): string
    requires i < |rows|
  {
    HashInput(PrevOf(rows, i), payload(rows[i].entry))
  }

  // Row i points at the row before it and carries the hash of both.
  ghost predicate Linked(hash: Hash, payload: Encoding, rows: seq<Row>, i: nat)
    requires i < |rows|
  {
    rows[i].prevHash == PrevOf(rows, i) && rows[i].hash == hash(InputOf(payload, rows, i))
  }

  ghost predicate Chained(hash: Hash, payload: Encoding, rows: seq<Row>) {
    forall i :: 0 <= i < |rows| ==> Linked(hash, payload, rows, i)
  }

  ghost predicate ClockRises(rows: seq<Row>) {
    forall i, j :: 0 <= i < j < |rows| ==> rows[i].createdAt < rows[j].createdAt
  }

  lemma ChainedByParts(hash: Hash, payload: Encoding, rows: seq<Row>, row: Row)
    ensures Chained(hash, payload, rows + [row])
      <==> Chained(hash, payload, rows) && Linked(hash, payload, rows + [row], |rows|)
  {
    var longer := rows + [row];
    forall i | 0 <= i < |rows| ensures Linked(hash, payload, longer, i) <==> Linked(hash, payload, rows, i) {
      assert longer[i] == rows[i] && PrevOf(longer, i) == PrevOf(rows, i);
    }
  }

  /** When the clock has risen strictly, the query returns the last row, and appending keeps the chain, whatever the
      time of the new row. */
  lemma AppendKeepsChain(hash: Hash, payload: Encoding, rows: seq<Row>, pick: Option<nat>, e: AuditEntry, now: int)
    requires Returned(rows, pick) && Chained(hash, payload, rows) && ClockRises(rows)
    ensures rows != [] ==> pick == Some(|rows| - 1)
    ensures Chained(hash, payload, Appended(hash, payload, rows, pick, e, now))
  {
    var rows' := Appended(hash, payload, rows, pick, e, now);
    ChainedByParts(hash, payload, rows, rows'[|rows|]);
  }

  ghost predicate LastIsNewest(rows: seq<Row>) {
    forall i :: 0 <= i < |rows| - 1 ==> rows[i].createdAt < rows[|rows| - 1].createdAt
  }

  ghost predicate DistinctHashes(rows: seq<Row>) {
    forall i, j :: 0 <= i < j < |rows| ==> rows[i].hash != rows[j].hash
  }

  /** As long as no two rows have the same hash: whatever row the query may return, the next append keeps the chain
      exactly when the last row is strictly newer than all the others. */
  lemma AppendSafeExactly(hash: Hash, payload: Encoding, rows: seq<Row>, e: AuditEntry, now: int)
    requires Chained(hash, payload, rows) && DistinctHashes(rows)
    ensures LastIsNewest(rows) <==>
      (forall pick :: Returned(rows, pick) ==> Chained(hash, payload, Appended(hash, payload, rows, pick, e, now)))
  {
    if LastIsNewest(rows) {
      forall pick | Returned(rows, pick) ensures Chained(hash, payload, Appended(hash, payload, rows, pick, e, now)) {
        ChainedByParts(hash, payload, rows, Appended(hash, payload, rows, pick, e, now)[|rows|]);
      }
    } else {
      var pick := SomeOtherNewest(rows);
      ChainedByParts(hash, payload, rows, Appended(hash, payload, rows, Some(pick), e, now)[|rows|]);
      assert Returned(rows, Some(pick));
      assert !Linked(hash, payload, Appended(hash, payload, rows, Some(pick), e, now), |rows|);
    }
  }

  // If the last row is not strictly the newest, the query may return another one.
  lemma SomeOtherNewest(rows: seq<Row>) returns (pick: nat)
    requires !LastIsNewest(rows)
    ensures Newest(rows, pick) && pick < |rows| - 1
  {
    pick :| 0 <= pick < |rows| - 1 && rows[|rows| - 1].createdAt <= rows[pick].createdAt;
    var i := 0;
    while i < |rows| - 1
      invariant 0 <= i <= |rows| - 1
      invariant 0 <= pick < |rows| - 1 && rows[|rows| - 1].createdAt <= rows[pick].createdAt
      invariant forall k :: 0 <= k < i ==> rows[k].createdAt <= rows[pick].createdAt
    {
      if rows[pick].createdAt < rows[i].createdAt {
        pick := i;
      }
      i := i + 1;
    }
  }

  // ----- payloads

  // Entries the ledger can tell apart: a missing field reads as an empty one.
  ghost predicate SameEntry(e: AuditEntry, f: AuditEntry) {
    && e.action == f.action && OrEmpty(e.userId) == OrEmpty(f.userId)
    && OrEmpty(e.botId) == OrEmpty(f.botId) && OrEmpty(e.detailJson) == OrEmpty(f.detailJson)
  }

  // Payloads are single lines that determine the entry, and are determined by it.
  ghost predicate Faithful(payload: Encoding) {
    && (forall e :: '\n' !in payload(e))
    && (forall e, f :: payload(e) == payload(f) <==> SameEntry(e, f))
  }

  lemma PayloadIsPlain(e: AuditEntry)
    ensures DistinctKeys(PayloadValue(e).fields) && Plain(PayloadValue(e))
  {
    assert "action"[0] == 'a' && "userId"[0] == 'u' && "botId"[0] == 'b' && "detailJson"[0] == 'd';
    var fields := PayloadValue(e).fields;
    assert forall i :: 0 <= i < |fields| ==> Plain(fields[i].value);
  }

  // Objects with the same keys, in the same places, whose values are all texts.
  lemma FlatAgree(fs: seq<Field>, gs: seq<Field>)
    requires |fs| == |gs| && DistinctKeys(fs)
    requires forall i :: 0 <= i < |fs| ==> fs[i].key == gs[i].key && fs[i].value.Str? && gs[i].value.Str?
    ensures Agree(Obj(fs), Obj(gs)) <==> fs == gs
  {
    if fs == gs {
      AgreeSelf(fs);
    }
    if Agree(Obj(fs), Obj(gs)) {
      forall i | 0 <= i < |fs| ensures fs[i] == gs[i] {
        AgreeAt(fs, gs, i);
      }
    }
  }

  lemma AgreeSelf(fs: seq<Field>)
    requires forall i :: 0 <= i < |fs| ==> fs[i].value.Str?
    ensures Agree(Obj(fs), Obj(fs))
  {
    forall i | 0 <= i < |fs|
      ensures exists j :: 0 <= j < |fs| && fs[j].key == fs[i].key && Agree(fs[i].value, fs[j].value)
    {
      assert Agree(fs[i].value, fs[i].value);
    }
  }

  lemma AgreeAt(fs: seq<Field>, gs: seq<Field>, i: nat)
    requires |fs| == |gs| && DistinctKeys(fs) && i < |fs| && fs[i].value.Str?
    requires forall j :: 0 <= j < |fs| ==> fs[j].key == gs[j].key
    requires Agree(Obj(fs), Obj(gs))
    ensures fs[i] == gs[i]
  {
    var j :| 0 <= j < |gs| && gs[j].key == fs[i].key && Agree(fs[i].value, gs[j].value);
    assert fs[j].key == fs[i].key;
  }

  lemma SameEntryAgrees(e: AuditEntry, f: AuditEntry)
    ensures Agree(PayloadValue(e), PayloadValue(f)) <==> SameEntry(e, f)
  {
    var fs, gs := PayloadValue(e).fields, PayloadValue(f).fields;
    PayloadIsPlain(e);
    FlatAgree(fs, gs);
    if fs == gs {
      assert fs[0] == gs[0] && fs[1] == gs[1] && fs[2] == gs[2] && fs[3] == gs[3];
    }
  }

  // A comparator that puts the four keys in alphabetical order.
  ghost predicate Alphabetical(before: KeyOrder) {
    && WeakOrder(before)
    && before("action", "botId") && before("action", "detailJson") && before("action", "userId")
    && before("botId", "detailJson") && before("botId", "userId") && before("detailJson", "userId")
  }

  ghost function SortedPayload(e: AuditEntry): seq<Field> {
    [Field("action", Str(e.action)), Field("botId", Str(OrEmpty(e.botId))),
     Field("detailJson", Str(OrEmpty(e.detailJson))), Field("userId", Str(OrEmpty(e.userId)))]
  }

  // Texts under keys that are told apart: the canonical form has the same fields in order.
  lemma SortedFieldsAreNormal(before: KeyOrder, fields: seq<Field>, sorted: seq<Field>)
    requires WeakOrder(before) && Ordered(FieldBefore(before), sorted)
    requires forall f :: f in fields <==> f in sorted
    requires forall f :: f in fields ==> f.value.Str?
    requires TellsApart(before, Obj(fields)) && TellsApart(before, Obj(sorted))
    ensures Normal(before, Obj(fields)) == Obj(sorted)
  {
    SameFieldsAgree(fields, sorted);
    AgreeMakesNormalEqual(before, Obj(fields), Obj(sorted));
    forall i | 0 <= i < |sorted| ensures sorted[i].value.Str? {
      assert sorted[i] in fields;
    }
    CanonicalIsFixed(before, Obj(sorted));
  }

  // The comparator orders any two keys of the fields.
  ghost predicate AllOrdered(before: KeyOrder, fields: seq<Field>) {
    forall i, j :: 0 <= i < j < |fields| ==>
      before(fields[i].key, fields[j].key) || before(fields[j].key, fields[i].key)
  }

  lemma FlatTellsApart(before: KeyOrder, fields: seq<Field>)
    requires AllOrdered(before, fields) && forall i :: 0 <= i < |fields| ==> fields[i].value.Str?
    ensures TellsApart(before, Obj(fields))
  {
  }

  lemma FourSorted(before: KeyOrder, a: Field, b: Field, c: Field, d: Field)
    requires WeakOrder(before) && before(a.key, b.key) && before(a.key, c.key) && before(a.key, d.key)
    requires before(b.key, c.key) && before(b.key, d.key) && before(c.key, d.key)
    ensures Ordered(FieldBefore(before), [a, b, c, d])
    ensures AllOrdered(before, [a, b, c, d]) && AllOrdered(before, [a, d, b, c])
    ensures forall f :: f in [a, d, b, c] <==> f in [a, b, c, d]
  {
  }

  lemma PayloadIsSorted(before: KeyOrder, e: AuditEntry)
    requires Alphabetical(before)
    ensures Normal(before, PayloadValue(e)) == Obj(SortedPayload(e))
  {
    var s := SortedPayload(e);
    FourSorted(before, s[0], s[1], s[2], s[3]);
    FlatTellsApart(before, [s[0], s[1], s[2], s[3]]);
    FlatTellsApart(before, [s[0], s[3], s[1], s[2]]);
    SortedFieldsAreNormal(before, [s[0], s[3], s[1], s[2]], [s[0], s[1], s[2], s[3]]);
  }

  // A key of plain letters with its text.
  ghost function Member(key: string, text: string): string {
    "\"" + key + "\":" + Quote(text)
  }

  ghost predicate PlainLetters(s: string) {
    forall i :: 0 <= i < |s| ==> s[i] >= ' ' && s[i] != '"' && s[i] != '\\'
  }

  lemma {:induction false} PlainIsNotEscaped(s: string)
    requires PlainLetters(s)
    ensures EscapeAll(s) == s
  {
    if s != "" {
      PlainIsNotEscaped(s[1..]);
      assert s == [s[0]] + s[1..];
    }
  }

  lemma MemberText(key: string, text: string)
    requires PlainLetters(key)
    ensures Quote(key) + ":" + Text(Str(text)) == Member(key, text)
  {
    PlainIsNotEscaped(key);
  }

  lemma KeysArePlain()
    ensures PlainLetters("action") && PlainLetters("botId") && PlainLetters("detailJson") && PlainLetters("userId")
  {
  }

  // The text of an object of four texts.
  lemma FourMembers(a: string, b: string, c: string, d: string, x: string, y: string, z: string, w: string)
    requires PlainLetters(a) && PlainLetters(b) && PlainLetters(c) && PlainLetters(d)
    ensures Text(Obj([Field(a, Str(x)), Field(b, Str(y)), Field(c, Str(z)), Field(d, Str(w))]))
         == "{" + Joined([Member(a, x), Member(b, y), Member(c, z), Member(d, w)]) + "}"
  {
    var fields := [Field(a, Str(x)), Field(b, Str(y)), Field(c, Str(z)), Field(d, Str(w))];
    ObjectText(fields);
    MemberText(a, x);
    MemberText(b, y);
    MemberText(c, z);
    MemberText(d, w);
    assert FieldTexts(fields) == [Member(a, x), Member(b, y), Member(c, z), Member(d, w)];
  }

  /** The payload, letter by letter: the four members in alphabetical order of their keys. */
  lemma PayloadText(before: KeyOrder, e: AuditEntry)
    requires Alphabetical(before)
    ensures Payload(before, e)
         == "{" + Joined([Member("action", e.action), Member("botId", OrEmpty(e.botId)),
                          Member("detailJson", OrEmpty(e.detailJson)), Member("userId", OrEmpty(e.userId))]) + "}"
  {
    PayloadIsSorted(before, e);
    KeysArePlain();
    FourMembers("action", "botId", "detailJson", "userId", e.action, OrEmpty(e.botId), OrEmpty(e.detailJson),
                OrEmpty(e.userId));
  }

  /** Two entries have the same payload exactly when they are the same up to missing and empty fields, however the keys
      are compared: the four keys come in one order in every payload. */
  lemma PayloadDecidesEntry(before: KeyOrder, e: AuditEntry, f: AuditEntry)
    ensures Payload(before, e) == Payload(before, f) <==> SameEntry(e, f)
    ensures '\n' !in Payload(before, e)
  {
    PayloadIsPlain(e);
    PayloadIsPlain(f);
    if Payload(before, e) == Payload(before, f) {
      SameTextAgrees(before, PayloadValue(e), PayloadValue(f));
      SameEntryAgrees(e, f);
    }
    NormalIsPlain(before, PayloadValue(e));
    TextHasNoNewline(Normal(before, PayloadValue(e)));
  }

  /** The ledger's own payloads are faithful, under any comparator of keys. */
  lemma PayloadIsFaithful(before: KeyOrder)
    ensures Faithful(PayloadOf(before))
  {
    forall e, f ensures PayloadOf(before)(e) == PayloadOf(before)(f) <==> SameEntry(e, f) {
      PayloadDecidesEntry(before, e, f);
    }
    forall e ensures '\n' !in PayloadOf(before)(e) {
      PayloadDecidesEntry(before, e, e);
    }
  }

  /** The text that is hashed determines the previous hash, up to a missing one, and the entry. */
  lemma HashInputDecides(payload: Encoding, p: Option<string>, e: AuditEntry, q: Option<string>, f: AuditEntry)
    requires Faithful(payload) && HashInput(p, payload(e)) == HashInput(q, payload(f))
    ensures OrEmpty(p) == OrEmpty(q) && SameEntry(e, f)
  {
    SplitAtLast(OrEmpty(p), payload(e), OrEmpty(q), payload(f), '\n');
  }

  // ----- tamper evidence

  // Two different texts that were hashed, one for each ledger, with the same hash.
  ghost predicate Collision(hash: Hash, payload: Encoding, r: seq<Row>, s: seq<Row>) {
    exists i, j ::
      && 0 <= i < |r| && 0 <= j < |s| && InputOf(payload, r, i) != InputOf(payload, s, j)
      && hash(InputOf(payload, r, i)) == hash(InputOf(payload, s, j))
  }

  ghost predicate SameEntries(r: seq<Row>, s: seq<Row>) {
    |r| == |s| && forall i :: 0 <= i < |r| ==> SameEntry(r[i].entry, s[i].entry)
  }

  ghost predicate SameTail(r: seq<Row>, s: seq<Row>) {
    r != [] && s != [] && r[|r| - 1].hash == s[|s| - 1].hash
  }

  ghost predicate NonEmptyHashes(hash: Hash) {
    forall x :: hash(x) != ""
  }

  lemma PrefixIsChained(hash: Hash, payload: Encoding, rows: seq<Row>)
    requires Chained(hash, payload, rows) && rows != []
    ensures Chained(hash, payload, rows[..|rows| - 1])
    ensures forall i :: 0 <= i < |rows| - 1 ==> InputOf(payload, rows[..|rows| - 1], i) == InputOf(payload, rows, i)
  {
    var front := rows[..|rows| - 1];
    assert rows == front + [rows[|rows| - 1]];
    ChainedByParts(hash, payload, front, rows[|rows| - 1]);
    assert forall i :: 0 <= i < |front| ==> front[i] == rows[i] && PrevOf(front, i) == PrevOf(rows, i);
  }

  lemma CollisionInPrefix(hash: Hash, payload: Encoding, r: seq<Row>, s: seq<Row>)
    requires r != [] && s != [] && Chained(hash, payload, r) && Chained(hash, payload, s)
    requires Collision(hash, payload, r[..|r| - 1], s[..|s| - 1])
    ensures Collision(hash, payload, r, s)
  {
    var r', s' := r[..|r| - 1], s[..|s| - 1];
    PrefixIsChained(hash, payload, r);
    PrefixIsChained(hash, payload, s);
    var i, j :| 0 <= i < |r'| && 0 <= j < |s'| && InputOf(payload, r', i) != InputOf(payload, s', j)
      && hash(InputOf(payload, r', i)) == hash(InputOf(payload, s', j));
    assert InputOf(payload, r, i) != InputOf(payload, s, j);
  }

  /** Tamper evidence. Two chains that end in the same hash have the same length and the same entries, one by one,
      unless they exhibit a collision of the hash function. */
  lemma {:induction false} EqualTailsEqualLedgers(hash: Hash, payload: Encoding, r: seq<Row>, s: seq<Row>)
    requires Faithful(payload) && NonEmptyHashes(hash)
    requires Chained(hash, payload, r) && Chained(hash, payload, s)
    requires SameTail(r, s)
    ensures SameEntries(r, s) || Collision(hash, payload, r, s)
    decreases |r|
  {
    var m, n := |r| - 1, |s| - 1;
    assert Linked(hash, payload, r, m) && Linked(hash, payload, s, n);
    if InputOf(payload, r, m) == InputOf(payload, s, n) {
      HashInputDecides(payload, PrevOf(r, m), r[m].entry, PrevOf(s, n), s[n].entry);
      if m > 0 { assert Linked(hash, payload, r, m - 1); }
      if n > 0 { assert Linked(hash, payload, s, n - 1); }
      if m > 0 {
        PrefixIsChained(hash, payload, r);
        PrefixIsChained(hash, payload, s);
        EqualTailsEqualLedgers(hash, payload, r[..m], s[..n]);
        if Collision(hash, payload, r[..m], s[..n]) {
          CollisionInPrefix(hash, payload, r, s);
        } else {
          SameWithLast(r, s);
        }
      }
    }
  }

  lemma SameWithLast(r: seq<Row>, s: seq<Row>)
    requires r != [] && s != [] && SameEntries(r[..|r| - 1], s[..|s| - 1])
    requires SameEntry(r[|r| - 1].entry, s[|s| - 1].entry)
    ensures SameEntries(r, s)
  {
    assert forall i :: 0 <= i < |r| - 1 ==> r[..|r| - 1][i] == r[i] && s[..|s| - 1][i] == s[i];
  }

  /** Conversely the entries determine every hash. */
  lemma {:induction false} EqualEntriesEqualHashes(hash: Hash, payload: Encoding, r: seq<Row>, s: seq<Row>, i: nat)
    requires Faithful(payload) && Chained(hash, payload, r) && Chained(hash, payload, s)
    requires SameEntries(r, s) && i < |r|
    ensures r[i].hash == s[i].hash
    decreases i
  {
    assert Linked(hash, payload, r, i) && Linked(hash, payload, s, i);
    if i > 0 {
      EqualEntriesEqualHashes(hash, payload, r, s, i - 1);
    }
  }

  // ----- whole runs

  datatype Append = Append(entry: AuditEntry, pick: Option<nat>, now: int)

  // A run of appends, oldest first, that the database can produce.
  ghost predicate Run(hash: Hash, payload: Encoding, appends: seq<Append>, rows: seq<Row>)
    decreases |appends|
  {
    if appends == [] then rows == []
    else
      var n := |appends| - 1;
      |rows| == |appends| && Run(hash, payload, appends[..n], rows[..n])
      && Returned(rows[..n], appends[n].pick)
      && rows == Appended(hash, payload, rows[..n], appends[n].pick, appends[n].entry, appends[n].now)
  }

  ghost predicate Rising(appends: seq<Append>) {
    forall i, j :: 0 <= i < j < |appends| ==> appends[i].now < appends[j].now
  }

  ghost predicate Records(appends: seq<Append>, rows: seq<Row>) {
    |rows| == |appends|
    && forall i :: 0 <= i < |rows| ==> rows[i].entry == appends[i].entry && rows[i].createdAt == appends[i].now
  }

  lemma RecordsOneMore(appends: seq<Append>, rows: seq<Row>)
    requires |rows| == |appends| > 0 && Records(appends[..|rows| - 1], rows[..|rows| - 1])
    requires rows[|rows| - 1].entry == appends[|rows| - 1].entry
    requires rows[|rows| - 1].createdAt == appends[|rows| - 1].now
    ensures Records(appends, rows)
  {
    var n := |rows| - 1;
    assert forall i :: 0 <= i < n ==> rows[..n][i] == rows[i] && appends[..n][i] == appends[i];
  }

  lemma {:induction false} RisingRunIsChained(hash: Hash, payload: Encoding, appends: seq<Append>, rows: seq<Row>)
    requires Run(hash, payload, appends, rows) && Rising(appends)
    ensures Chained(hash, payload, rows) && ClockRises(rows) && Records(appends, rows)
    decreases |appends|
  {
    if appends != [] {
      var n := |appends| - 1;
      RisingRunIsChained(hash, payload, appends[..n], rows[..n]);
      RecordsOneMore(appends, rows);
      AppendKeepsChain(hash, payload, rows[..n], appends[n].pick, appends[n].entry, appends[n].now);
      RecordsRise(appends, rows);
    }
  }

  lemma RecordsRise(appends: seq<Append>, rows: seq<Row>)
    requires Records(appends, rows) && Rising(appends)
    ensures ClockRises(rows)
  {
  }

  // The times of all appends but the last rise strictly.
  ghost predicate RisingToLast(appends: seq<Append>) {
    appends != [] && Rising(appends[..|appends| - 1])
  }

  lemma RunIsChained(hash: Hash, payload: Encoding, appends: seq<Append>, rows: seq<Row>)
    requires Run(hash, payload, appends, rows) && RisingToLast(appends)
    ensures Chained(hash, payload, rows) && Records(appends, rows)
  {
    var n := |appends| - 1;
    RisingRunIsChained(hash, payload, appends[..n], rows[..n]);
    RecordsOneMore(appends, rows);
    AppendKeepsChain(hash, payload, rows[..n], appends[n].pick, appends[n].entry, appends[n].now);
  }

  ghost predicate SameAppends(p: seq<Append>, q: seq<Append>) {
    |p| == |q| && forall i :: 0 <= i < |p| ==> SameEntry(p[i].entry, q[i].entry)
  }

  lemma SameRows(p: seq<Append>, r: seq<Row>, q: seq<Append>, s: seq<Row>)
    requires Records(p, r) && Records(q, s) && SameEntries(r, s)
    ensures SameAppends(p, q)
  {
    forall i | 0 <= i < |p| ensures SameEntry(p[i].entry, q[i].entry) {
      assert SameEntry(r[i].entry, s[i].entry);
    }
  }

  /** Tamper evidence over runs: two runs of appends, in each of which all times but the last rise strictly, that end in
      the same hash appended the same entries in the same order, or exhibit a collision. */
  lemma EqualTailsEqualRuns(hash: Hash, payload: Encoding, p: seq<Append>, r: seq<Row>, q: seq<Append>, s: seq<Row>)
    requires Faithful(payload) && NonEmptyHashes(hash)
    requires Run(hash, payload, p, r) && RisingToLast(p) && Run(hash, payload, q, s) && RisingToLast(q)
    requires SameTail(r, s)
    ensures Collision(hash, payload, r, s) || SameAppends(p, q)
  {
    RunIsChained(hash, payload, p, r);
    RunIsChained(hash, payload, q, s);
    EqualTailsEqualLedgers(hash, payload, r, s);
    if !Collision(hash, payload, r, s) {
      SameRows(p, r, q, s);
    }
  }

  /** The same for the payloads the ledger really hashes, under any comparator of keys. */
  lemma TamperEvidence(hash: Hash, before: KeyOrder, payload: Encoding, p: seq<Append>, r: seq<Row>, q: seq<Append>,
                       s: seq<Row>)
    requires payload == PayloadOf(before) && NonEmptyHashes(hash)
    requires Run(hash, payload, p, r) && RisingToLast(p)
    requires Run(hash, payload, q, s) && RisingToLast(q)
    requires SameTail(r, s)
    ensures Collision(hash, payload, r, s) || SameAppends(p, q)
  {
    PayloadIsFaithful(before);
    EqualTailsEqualRuns(hash, payload, p, r, q, s);
  }

  // ----- the condition is exact

  // The first among the latest of the first n times.
  function FirstLatest(times: seq<int>, n: nat): (m: nat)
    requires 0 < n <= |times|
    ensures m < n
  {
    if n == 1 then 0
    else
      var m := FirstLatest(times, n - 1);
      if times[n - 1] > times[m] then n - 1 else m
  }

  lemma {:induction false} FirstLatestIsFirst(times: seq<int>, n: nat)
    requires 0 < n <= |times|
    ensures var m := FirstLatest(times, n);
      && (forall i :: 0 <= i < n ==> times[i] <= times[m])
      && (forall i :: 0 <= i < m ==> times[i] < times[m])
  {
    if n > 1 {
      FirstLatestIsFirst(times, n - 1);
    }
  }

  function FirstPick(times: seq<int>, n: nat): Option<nat>
    requires n <= |times|
  {
    if n == 0 then None else Some(FirstLatest(times, n))
  }

  // The run at these times in which the query always returns the first of the newest rows, ...
  ghost function FirstAppends(entries: seq<AuditEntry>, times: seq<int>, n: nat): (appends: seq<Append>)
    requires n <= |entries| == |times|
    ensures |appends| == n
    ensures forall i :: 0 <= i < n ==> appends[i].entry == entries[i] && appends[i].now == times[i]
  {
    if n == 0 then []
    else FirstAppends(entries, times, n - 1) + [Append(entries[n - 1], FirstPick(times, n - 1), times[n - 1])]
  }

  // ... and row j of the ledger it builds.
  ghost function FirstRow(hash: Hash, payload: Encoding, entries: seq<AuditEntry>, times: seq<int>, j: nat): Row
    requires j < |entries| == |times|
  {
    var pick := FirstPick(times, j);
    var prevHash := if pick.Some? then Some(FirstRow(hash, payload, entries, times, pick.value).hash) else None;
    Row(prevHash, hash(HashInput(prevHash, payload(entries[j]))), entries[j], times[j])
  }

  ghost function FirstRows(hash: Hash, payload: Encoding, entries: seq<AuditEntry>, times: seq<int>, n: nat)
    : (rows: seq<Row>)
    requires n <= |entries| == |times|
    ensures |rows| == n
  {
    seq(n, j requires 0 <= j < n => FirstRow(hash, payload, entries, times, j))
  }

  ghost predicate MadeAt(appends: seq<Append>, entries: seq<AuditEntry>, times: seq<int>) {
    |appends| == |entries| == |times|
    && forall i :: 0 <= i < |appends| ==> appends[i].entry == entries[i] && appends[i].now == times[i]
  }

  lemma RunOn(hash: Hash, payload: Encoding, appends: seq<Append>, rows: seq<Row>, a: Append)
    requires Run(hash, payload, appends, rows) && |appends| == |rows| && Returned(rows, a.pick)
    ensures Run(hash, payload, appends + [a], Appended(hash, payload, rows, a.pick, a.entry, a.now))
  {
    var rows' := Appended(hash, payload, rows, a.pick, a.entry, a.now);
    var appends' := appends + [a];
    assert appends'[..|appends|] == appends && appends'[|appends|] == a;
    assert rows'[..|rows|] == rows;
  }

  lemma FirstRowsGrow(hash: Hash, payload: Encoding, entries: seq<AuditEntry>, times: seq<int>, n: nat)
    requires n < |entries| == |times|
    ensures Returned(FirstRows(hash, payload, entries, times, n), FirstPick(times, n))
    ensures FirstRows(hash, payload, entries, times, n + 1)
         == Appended(hash, payload, FirstRows(hash, payload, entries, times, n), FirstPick(times, n), entries[n],
                     times[n])
  {
    if n > 0 {
      FirstLatestIsFirst(times, n);
    }
  }

  lemma {:induction false} FirstRun(hash: Hash, payload: Encoding, entries: seq<AuditEntry>, times: seq<int>, n: nat)
    requires n <= |entries| == |times|
    ensures Run(hash, payload, FirstAppends(entries, times, n), FirstRows(hash, payload, entries, times, n))
  {
    if n > 0 {
      FirstRun(hash, payload, entries, times, n - 1);
      FirstRowsGrow(hash, payload, entries, times, n - 1);
      RunOn(hash, payload, FirstAppends(entries, times, n - 1), FirstRows(hash, payload, entries, times, n - 1),
            Append(entries[n - 1], FirstPick(times, n - 1), times[n - 1]));
    }
  }

  ghost predicate DifferOnlyAt(es: seq<AuditEntry>, fs: seq<AuditEntry>, k: nat) {
    |es| == |fs| && forall j :: 0 <= j < |es| && j != k ==> es[j] == fs[j]
  }

  lemma NeverPicked(times: seq<int>, i: nat, k: nat, n: nat)
    requires i < k < |times| && times[i] >= times[k] && n <= |times|
    ensures FirstPick(times, n).Some? ==> FirstPick(times, n).value != k
  {
    if n > 0 {
      FirstLatestIsFirst(times, n);
    }
  }

  // The row of an entry that is not newer than an earlier one is never returned, so no other hash depends on it.
  lemma {:induction false} HiddenRow(hash: Hash, payload: Encoding, es: seq<AuditEntry>, fs: seq<AuditEntry>,
                                     times: seq<int>, i: nat, k: nat, j: nat)
    requires j < |es| == |times| && j != k
    requires DifferOnlyAt(es, fs, k) && i < k < |times| && times[i] >= times[k]
    ensures FirstRow(hash, payload, es, times, j).hash == FirstRow(hash, payload, fs, times, j).hash
    decreases j
  {
    NeverPicked(times, i, k, j);
    if j > 0 {
      HiddenRow(hash, payload, es, fs, times, i, k, FirstPick(times, j).value);
    }
  }

  lemma TailHash(hash: Hash, payload: Encoding, entries: seq<AuditEntry>, times: seq<int>, tail: string)
    requires |entries| == |times| > 0 && FirstRow(hash, payload, entries, times, |times| - 1).hash == tail
    ensures var rows := FirstRows(hash, payload, entries, times, |times|);
      rows != [] && rows[|rows| - 1].hash == tail
  {
  }

  lemma HiddenTail(hash: Hash, payload: Encoding, es: seq<AuditEntry>, fs: seq<AuditEntry>, times: seq<int>, i: nat,
                   k: nat)
    requires |es| == |times| && DifferOnlyAt(es, fs, k) && i < k < |times| - 1 && times[i] >= times[k]
    ensures SameTail(FirstRows(hash, payload, es, times, |times|), FirstRows(hash, payload, fs, times, |times|))
  {
    var tail := FirstRow(hash, payload, es, times, |times| - 1).hash;
    HiddenRow(hash, payload, es, fs, times, i, k, |times| - 1);
    TailHash(hash, payload, es, times, tail);
    TailHash(hash, payload, fs, times, tail);
  }

  /** Ties hide entries, for every hash function: if an entry before the last one is not newer than an earlier one, the
      ledgers of any two lists of entries that differ only there can end in the same hash. */
  lemma TiesHideAnEntry(hash: Hash, payload: Encoding, es: seq<AuditEntry>, fs: seq<AuditEntry>, times: seq<int>,
                        i: nat, k: nat)
    requires |es| == |times| && DifferOnlyAt(es, fs, k) && i < k < |times| - 1 && times[i] >= times[k]
    ensures exists p, r, q, s ::
      && Run(hash, payload, p, r) && Run(hash, payload, q, s) && MadeAt(p, es, times) && MadeAt(q, fs, times)
      && SameTail(r, s)
  {
    var n := |times|;
    FirstRun(hash, payload, es, times, n);
    FirstRun(hash, payload, fs, times, n);
    HiddenTail(hash, payload, es, fs, times, i, k);
    assert MadeAt(FirstAppends(es, times, n), es, times) && MadeAt(FirstAppends(fs, times, n), fs, times);
  }

  ghost predicate HeldAt(appends: seq<Append>, times: seq<int>) {
    |appends| == |times| && forall i :: 0 <= i < |times| ==> appends[i].now == times[i]
  }

  // At these times, equal last hashes always mean equal entries.
  ghost predicate TamperEvidentAt(hash: Hash, payload: Encoding, times: seq<int>) {
    forall p, r, q, s ::
      && Run(hash, payload, p, r) && Run(hash, payload, q, s) && HeldAt(p, times) && HeldAt(q, times)
      && SameTail(r, s)
      ==> SameAppends(p, q)
  }

  ghost predicate CollisionFree(hash: Hash) {
    forall x, y :: hash(x) == hash(y) ==> x == y
  }

  ghost predicate TimesRiseToLast(times: seq<int>) {
    forall i, j :: 0 <= i < j < |times| - 1 ==> times[i] < times[j]
  }

  lemma MadeDifferently(p: seq<Append>, q: seq<Append>, es: seq<AuditEntry>, fs: seq<AuditEntry>, times: seq<int>,
                        k: nat)
    requires MadeAt(p, es, times) && MadeAt(q, fs, times) && k < |times| && !SameEntry(es[k], fs[k])
    ensures HeldAt(p, times) && HeldAt(q, times) && !SameAppends(p, q)
  {
  }

  lemma NotEvident(hash: Hash, payload: Encoding, es: seq<AuditEntry>, fs: seq<AuditEntry>, times: seq<int>, i: nat,
                   k: nat)
    requires |es| == |times| && DifferOnlyAt(es, fs, k) && i < k < |times| - 1 && times[i] >= times[k]
    requires !SameEntry(es[k], fs[k])
    ensures !TamperEvidentAt(hash, payload, times)
  {
    TiesHideAnEntry(hash, payload, es, fs, times, i, k);
    var p: seq<Append>, r: seq<Row>, q: seq<Append>, s: seq<Row> :|
      && Run(hash, payload, p, r) && Run(hash, payload, q, s) && MadeAt(p, es, times) && MadeAt(q, fs, times)
      && SameTail(r, s);
    MadeDifferently(p, q, es, fs, times, k);
  }

  lemma TiesAreNotEvident(hash: Hash, payload: Encoding, times: seq<int>)
    requires !TimesRiseToLast(times)
    ensures !TamperEvidentAt(hash, payload, times)
  {
    var i, k :| 0 <= i < k < |times| - 1 && times[i] >= times[k];
    var es := seq(|times|, _ => AuditEntry("a", None, None, None));
    NotEvident(hash, payload, es, es[k := AuditEntry("b", None, None, None)], times, i, k);
  }

  /** Tamper evidence, exactly: with a collision-free hash the last hash decides all entries if and only if the times of
      all appends but the last rise strictly. */
  lemma TamperEvidentExactly(hash: Hash, payload: Encoding, times: seq<int>)
    requires Faithful(payload) && NonEmptyHashes(hash) && CollisionFree(hash)
    ensures TamperEvidentAt(hash, payload, times) <==> TimesRiseToLast(times)
  {
    if TimesRiseToLast(times) {
      forall p, r, q, s |
        && Run(hash, payload, p, r) && Run(hash, payload, q, s) && HeldAt(p, times) && HeldAt(q, times)
        && SameTail(r, s)
        ensures SameAppends(p, q)
      {
        EqualTailsEqualRuns(hash, payload, p, r, q, s);
      }
    } else {
      TiesAreNotEvident(hash, payload, times);
    }
  }

  /** In particular for the payloads the ledger really hashes, under any comparator of keys. */
  lemma LedgerIsTamperEvidentExactly(hash: Hash, before: KeyOrder, times: seq<int>)
    requires NonEmptyHashes(hash) && CollisionFree(hash)
    ensures TamperEvidentAt(hash, PayloadOf(before), times) <==> TimesRiseToLast(times)
  {
    PayloadIsFaithful(before);
    TamperEvidentExactly(hash, PayloadOf(before), times);
  }

  // For instance three appends in one millisecond: the last hash says nothing about the second entry.
  lemma TiedClockForks(hash: Hash, payload: Encoding, e0: AuditEntry, e1: AuditEntry, e2: AuditEntry,
                       forged: AuditEntry, now: int)
    ensures exists p, r, q, s ::
      && Run(hash, payload, p, r) && Run(hash, payload, q, s)
      && MadeAt(p, [e0, e1, e2], [now, now, now]) && MadeAt(q, [e0, forged, e2], [now, now, now])
      && SameTail(r, s)
  {
    TiesHideAnEntry(hash, payload, [e0, e1, e2], [e0, forged, e2], [now, now, now], 0, 1);
  }
}
