/** The message store: identities, parent links and batches, under the triggers of
    dd.sql. Each operation is one transaction; one that a guard refuses changes
    nothing. (cmd/fmsgd/store.go, pkg/message/store.go, dd.sql) */
module Store {
  import opened Prelude

  type Id = nat

  /** A msg row. A draft has no hash; `psha` is the recorded parent hash. */
  datatype Msg = Msg(hash: Option<bytes>, terminal: bool, pid: Option<Id>, psha: Option<bytes>)

  /** A msg_add_to_batch row; `wirePid` is the pid of its sealed wire form. */
  datatype BatchRow = BatchRow(msg: Id, hash: Option<bytes>, wirePid: Option<bytes>)

  datatype Db = Db(msgs: map<Id, Msg>, batches: map<Id, BatchRow>)

  predicate Sent(m: Msg) { m.hash.Some? }

  predicate BatchHash(db: Db, msg: Id, hash: bytes) {
    exists b :: b in db.batches && db.batches[b].msg == msg && db.batches[b].hash == Some(hash)
  }

  /** The parent at pid may be recorded with this parent hash. */
  predicate Names(db: Db, pid: Id, psha: Option<bytes>) {
    pid in db.msgs && psha.Some? && (db.msgs[pid].hash == psha || BatchHash(db, pid, psha.value))
  }

  // ---- the guards ----

  /** populate_msg_psha256_from_pid: the parent hash to record for a row pointing
      at pid, or None when the trigger raises. */
  function GuardPid(db: Db, pid: Id, psha: Option<bytes>): Option<bytes> {
    if pid !in db.msgs || !Sent(db.msgs[pid]) || db.msgs[pid].terminal then None
    else if psha.None? || psha.value == [] || psha == db.msgs[pid].hash then db.msgs[pid].hash
    else if BatchHash(db, pid, psha.value) then psha
    else None
  }

  /** The row with its parent link and hash, as the trigger leaves them. */
  function Linked(db: Db, m: Msg): Option<Msg> {
    if m.pid.None? then Some(m)
    else
      match GuardPid(db, m.pid.value, m.psha)
      case None => None
      case Some(h) => Some(m.(psha := Some(h)))
  }

  predicate HashFree(db: Db, hash: bytes) {
    |hash| == 32 && forall i :: i in db.msgs ==> db.msgs[i].hash != Some(hash)
  }

  /** prevent_add_to_terminal_msg */
  predicate MayAddTo(db: Db, msg: Id) { msg in db.msgs && !db.msgs[msg].terminal }

  // ---- the operations ----

  /** Seals the given batches with their hashes and the message hash as pid. */
  function SealBatches(db: Db, hash: bytes, seals: map<Id, bytes>): Db {
    db.(batches := map b | b in db.batches ::
          if b in seals then BatchRow(db.batches[b].msg, Some(seals[b]), Some(hash)) else db.batches[b])
  }

  /** The unsealed batches of a message. */
  function Unsealed(db: Db, msg: Id): set<Id> {
    set b | b in db.batches && db.batches[b].msg == msg && db.batches[b].hash.None?
  }

  /** setPendingChildrenParentID: every unlinked row naming hash now points at id. */
  function LinkChildren(db: Db, id: Id, hash: bytes): Db {
    db.(msgs := map i | i in db.msgs ::
          if db.msgs[i].pid.None? && db.msgs[i].psha == Some(hash) then db.msgs[i].(pid := Some(id)) else db.msgs[i])
  }

  predicate HasPendingChild(db: Db, hash: bytes) {
    exists i :: i in db.msgs && db.msgs[i].pid.None? && db.msgs[i].psha == Some(hash)
  }

  /** resolvePendingChildLinks: refused when the parent may not be pointed at. */
  function ResolveChildren(db: Db, id: Id, hash: bytes): Option<Db>
    requires id in db.msgs
  {
    if HasPendingChild(db, hash) && GuardPid(db, id, Some(hash)).None? then None else Some(LinkChildren(db, id, hash))
  }

  /** lookupParentID: a message with this hash, or one with a batch that has it. */
  predicate IsParent(db: Db, id: Id, hash: bytes) {
    id in db.msgs && (db.msgs[id].hash == Some(hash) || BatchHash(db, id, hash))
  }

  datatype Op =
    | CreateDraft(id: Id, draft: Msg)
    | EditDraft(id: Id, draft: Msg)
    | Finalize(id: Id, hash: bytes, seals: map<Id, bytes>)
    | AddBatch(batch: Id, msg: Id, seal: bytes)
    | StoreMessage(id: Id, hash: bytes, terminal: bool, psha: Option<bytes>, parent: Id)
    | StoreAddTo(id: Id, pid: bytes, batch: Id, seal: bytes)
    | Attach(batch: Id, msg: Id, pid: bytes, seal: bytes)

  function PutDraft(db: Db, id: Id, draft: Msg): Option<Db> {
    match Linked(db, draft.(hash := None))
    case None => None
    case Some(m) => Some(db.(msgs := db.msgs[id := m]))
  }

  /** message.Finalize: stamps a draft, whose parent must be sent and not terminal,
      and seals its batches. */
  function FinalizeStep(db: Db, id: Id, hash: bytes, seals: map<Id, bytes>): Option<Db> {
    if id !in db.msgs || Sent(db.msgs[id]) || !HashFree(db, hash) || seals.Keys != Unsealed(db, id) then None
    else
      match Linked(db, db.msgs[id])
      case None => None
      case Some(m) =>
        if HasParent(m.psha) && |m.psha.value| != 32 then None
        else Some(SealBatches(db.(msgs := db.msgs[id := m.(hash := Some(hash))]), hash, seals))
  }

  /** A batch recorded against a message: sealed at once when the message is sent. */
  function AddBatchStep(db: Db, batch: Id, msg: Id, seal: bytes): Option<Db> {
    if batch in db.batches || !MayAddTo(db, msg) then None
    else if Sent(db.msgs[msg]) then
      Some(db.(batches := db.batches[batch := BatchRow(msg, Some(seal), db.msgs[msg].hash)]))
    else Some(db.(batches := db.batches[batch := BatchRow(msg, None, None)]))
  }

  /** requiresStoredParent: the message is a reply. */
  predicate HasParent(psha: Option<bytes>) { psha.Some? && psha.value != [] }

  /** storeMsgDetail for a message that is not an add-to: insert, finalise, link to
      the stored parent (required for a reply), link waiting children. */
  function StoreMessageStep(db: Db, id: Id, hash: bytes, terminal: bool, psha: Option<bytes>, parent: Id): Option<Db> {
    if id in db.msgs || !HashFree(db, hash) then None
    else
      var db1 := db.(msgs := db.msgs[id := Msg(Some(hash), terminal, None, psha)]);
      if !HasParent(psha) then ResolveChildren(db1, id, hash)
      else if !IsParent(db1, parent, psha.value) then None
      else
        match Linked(db1, db1.msgs[id].(pid := Some(parent)))
        case None => None
        case Some(m) => ResolveChildren(db1.(msgs := db1.msgs[id := m]), id, hash)
  }

  /** storeMsgDetail for an add-to of a message not held: the row's identity is the
      add-to's pid. */
  function StoreAddToStep(db: Db, id: Id, pid: bytes, batch: Id, seal: bytes): Option<Db> {
    if id in db.msgs || batch in db.batches || !HashFree(db, pid) then None
    else
      var db1 := Db(db.msgs[id := Msg(Some(pid), false, None, None)],
                    db.batches[batch := BatchRow(id, Some(seal), Some(pid))]);
      ResolveChildren(db1, id, pid)
  }

  /** attachAddToRecipients: an add-to of a message held, found by its pid. */
  function AttachStep(db: Db, batch: Id, msg: Id, pid: bytes, seal: bytes): Option<Db> {
    if batch in db.batches || !MayAddTo(db, msg) || db.msgs[msg].hash != Some(pid) then None
    else Some(db.(batches := db.batches[batch := BatchRow(msg, Some(seal), Some(pid))]))
  }

  function Step(db: Db, op: Op): Option<Db> {
    match op
    case CreateDraft(id, draft) => if id in db.msgs then None else PutDraft(db, id, draft)
    case EditDraft(id, draft) => if id !in db.msgs || Sent(db.msgs[id]) then None else PutDraft(db, id, draft)
    case Finalize(id, hash, seals) => FinalizeStep(db, id, hash, seals)
    case AddBatch(batch, msg, seal) => AddBatchStep(db, batch, msg, seal)
    case StoreMessage(id, hash, terminal, psha, parent) => StoreMessageStep(db, id, hash, terminal, psha, parent)
    case StoreAddTo(id, pid, batch, seal) => StoreAddToStep(db, id, pid, batch, seal)
    case Attach(batch, msg, pid, seal) => AttachStep(db, batch, msg, pid, seal)
  }

  function Run(ops: seq<Op>): Db {
    if ops == [] then Db(map[], map[])
    else
      var db := Run(ops[..|ops| - 1]);
      match Step(db, ops[|ops| - 1])
      case None => db
      case Some(next) => next
  }

  // ---- what every run keeps ----

  /** A parent link points to a sent, non-terminal row named by the recorded hash. */
  ghost predicate LinkOk(db: Db, m: Msg) {
    m.pid.Some? ==>
      Names(db, m.pid.value, m.psha) && Sent(db.msgs[m.pid.value]) && !db.msgs[m.pid.value].terminal
  }

  ghost predicate LinksOk(db: Db) { forall i :: i in db.msgs ==> LinkOk(db, db.msgs[i]) }

  /** A batch is sealed exactly when its message is sent, and then carries the
      message row's hash as pid. */
  ghost predicate BatchOk(db: Db, b: BatchRow) {
    b.msg in db.msgs && (b.hash.Some? <==> Sent(db.msgs[b.msg])) &&
    (b.hash.Some? ==> b.wirePid == db.msgs[b.msg].hash)
  }

  ghost predicate BatchesOk(db: Db) { forall b :: b in db.batches ==> BatchOk(db, db.batches[b]) }

  ghost predicate HashesUnique(db: Db) {
    forall i, j :: i in db.msgs && j in db.msgs && i != j && Sent(db.msgs[i]) ==> db.msgs[i].hash != db.msgs[j].hash
  }

  ghost predicate Valid(db: Db) { LinksOk(db) && BatchesOk(db) && HashesUnique(db) }

  /** Later keeps what links and batches rely on: sent rows and sealed batches. */
  ghost predicate Extends(db: Db, next: Db) {
    (forall i :: i in db.msgs && Sent(db.msgs[i]) ==>
       i in next.msgs && next.msgs[i].hash == db.msgs[i].hash && next.msgs[i].terminal == db.msgs[i].terminal) &&
    (forall b :: b in db.batches && db.batches[b].hash.Some? ==> b in next.batches && next.batches[b] == db.batches[b])
  }

  lemma {:induction false} LinkSurvives(db: Db, next: Db, m: Msg)
    requires Extends(db, next) && LinkOk(db, m)
    ensures LinkOk(next, m)
  {
    if m.pid.Some? && db.msgs[m.pid.value].hash != m.psha {
      var b :| b in db.batches && db.batches[b].msg == m.pid.value && db.batches[b].hash == Some(m.psha.value);
      assert b in next.batches && next.batches[b] == db.batches[b];
    }
  }

  lemma {:induction false} BatchSurvives(db: Db, next: Db, b: BatchRow)
    requires Extends(db, next) && BatchOk(db, b)
    requires b.msg in next.msgs && (Sent(next.msgs[b.msg]) ==> Sent(db.msgs[b.msg]))
    ensures BatchOk(next, b)
  {
  }

  /** A row the trigger lets through has a good link. */
  lemma {:induction false} GuardedLinkOk(db: Db, m: Msg)
    requires Linked(db, m).Some?
    ensures LinkOk(db, Linked(db, m).value)
  {
  }

  lemma {:induction false} PutDraftKeeps(db: Db, id: Id, draft: Msg)
    requires Valid(db) && (id in db.msgs ==> !Sent(db.msgs[id])) && PutDraft(db, id, draft).Some?
    ensures Valid(PutDraft(db, id, draft).value)
  {
    var m := Linked(db, draft.(hash := None)).value;
    var next := db.(msgs := db.msgs[id := m]);
    assert Extends(db, next);
    GuardedLinkOk(db, draft.(hash := None));
    forall i | i in next.msgs ensures LinkOk(next, next.msgs[i]) { LinkSurvives(db, next, next.msgs[i]); }
    forall b | b in next.batches ensures BatchOk(next, next.batches[b]) { BatchSurvives(db, next, next.batches[b]); }
  }

  lemma {:induction false} FinalizeKeeps(db: Db, id: Id, hash: bytes, seals: map<Id, bytes>)
    requires Valid(db) && FinalizeStep(db, id, hash, seals).Some?
    ensures Valid(FinalizeStep(db, id, hash, seals).value)
  {
    var m := Linked(db, db.msgs[id]).value;
    var next := FinalizeStep(db, id, hash, seals).value;
    assert Extends(db, next);
    GuardedLinkOk(db, db.msgs[id]);
    forall i | i in next.msgs ensures LinkOk(next, next.msgs[i]) {
      if i == id {
        LinkSurvives(db, next, m);
        assert next.msgs[i] == m.(hash := Some(hash));
      } else {
        LinkSurvives(db, next, db.msgs[i]);
      }
    }
    forall b | b in next.batches ensures BatchOk(next, next.batches[b]) {
      if b !in seals { BatchSurvives(db, next, db.batches[b]); }
    }
  }

  lemma {:induction false} NewBatchKeeps(db: Db, batch: Id, row: BatchRow)
    requires Valid(db) && batch !in db.batches && BatchOk(db, row)
    ensures Valid(db.(batches := db.batches[batch := row]))
  {
    var next := db.(batches := db.batches[batch := row]);
    assert Extends(db, next);
    forall i | i in next.msgs ensures LinkOk(next, next.msgs[i]) { LinkSurvives(db, next, next.msgs[i]); }
  }

  /** A new sent row, itself well linked. */
  lemma {:induction false} NewRowKeeps(db: Db, id: Id, m: Msg)
    requires Valid(db) && id !in db.msgs && m.hash.Some? && HashFree(db, m.hash.value)
    requires LinkOk(db.(msgs := db.msgs[id := m]), m)
    ensures Valid(db.(msgs := db.msgs[id := m])) && Extends(db, db.(msgs := db.msgs[id := m]))
  {
    var next := db.(msgs := db.msgs[id := m]);
    assert Extends(db, next);
    forall i | i in next.msgs ensures LinkOk(next, next.msgs[i]) {
      if i != id { LinkSurvives(db, next, db.msgs[i]); }
    }
    forall b | b in next.batches ensures BatchOk(next, next.batches[b]) { BatchSurvives(db, next, next.batches[b]); }
  }

  lemma {:induction false} ResolveChildrenKeeps(db: Db, id: Id, hash: bytes)
    requires Valid(db) && id in db.msgs && db.msgs[id].hash == Some(hash) && ResolveChildren(db, id, hash).Some?
    ensures Valid(ResolveChildren(db, id, hash).value)
  {
    var next := ResolveChildren(db, id, hash).value;
    assert Extends(db, next);
    forall i | i in next.msgs ensures LinkOk(next, next.msgs[i]) {
      if db.msgs[i].pid.None? && db.msgs[i].psha == Some(hash) {
        assert HasPendingChild(db, hash);
      } else {
        LinkSurvives(db, next, db.msgs[i]);
      }
    }
    forall b | b in next.batches ensures BatchOk(next, next.batches[b]) { BatchSurvives(db, next, next.batches[b]); }
  }

  lemma {:induction false} StoreMessageKeeps(db: Db, id: Id, hash: bytes, terminal: bool, psha: Option<bytes>,
                                             parent: Id)
    requires Valid(db) && StoreMessageStep(db, id, hash, terminal, psha, parent).Some?
    ensures Valid(StoreMessageStep(db, id, hash, terminal, psha, parent).value)
  {
    var first := Msg(Some(hash), terminal, None, psha);
    var db1 := db.(msgs := db.msgs[id := first]);
    if !HasParent(psha) {
      NewRowKeeps(db, id, first);
      ResolveChildrenKeeps(db1, id, hash);
    } else {
      var asked := first.(pid := Some(parent));
      GuardedLinkOk(db1, asked);
      var m := Linked(db1, asked).value;
      var db2 := db.(msgs := db.msgs[id := m]);
      assert db1.(msgs := db1.msgs[id := m]) == db2;
      assert Extends(db1, db2);
      LinkSurvives(db1, db2, m);
      NewRowKeeps(db, id, m);
      ResolveChildrenKeeps(db2, id, hash);
    }
  }

  lemma {:induction false} StoreAddToKeeps(db: Db, id: Id, pid: bytes, batch: Id, seal: bytes)
    requires Valid(db) && StoreAddToStep(db, id, pid, batch, seal).Some?
    ensures Valid(StoreAddToStep(db, id, pid, batch, seal).value)
  {
    var m := Msg(Some(pid), false, None, None);
    NewRowKeeps(db, id, m);
    var db1 := db.(msgs := db.msgs[id := m]);
    NewBatchKeeps(db1, batch, BatchRow(id, Some(seal), Some(pid)));
    ResolveChildrenKeeps(db1.(batches := db1.batches[batch := BatchRow(id, Some(seal), Some(pid))]), id, pid);
  }

  lemma {:induction false} StepKeeps(db: Db, op: Op)
    requires Valid(db) && Step(db, op).Some?
    ensures Valid(Step(db, op).value)
  {
    match op
    case CreateDraft(id, draft) => PutDraftKeeps(db, id, draft);
    case EditDraft(id, draft) => PutDraftKeeps(db, id, draft);
    case Finalize(id, hash, seals) => FinalizeKeeps(db, id, hash, seals);
    case AddBatch(batch, msg, seal) =>
      var row := if Sent(db.msgs[msg]) then BatchRow(msg, Some(seal), db.msgs[msg].hash) else BatchRow(msg, None, None);
      NewBatchKeeps(db, batch, row);
    case StoreMessage(id, hash, terminal, psha, parent) => StoreMessageKeeps(db, id, hash, terminal, psha, parent);
    case StoreAddTo(id, pid, batch, seal) => StoreAddToKeeps(db, id, pid, batch, seal);
    case Attach(batch, msg, pid, seal) => NewBatchKeeps(db, batch, BatchRow(msg, Some(seal), Some(pid)));
  }

  /** In every run of store and finalise operations, every parent link points to a
      sent, non-terminal row whose hash, or one of whose batch hashes, is the
      child's recorded parent hash; a batch is sealed exactly when its message is
      sent, and then carries the message row's hash as pid; and no two rows
      share a hash. */
  lemma {:induction false} StoreStaysValid(ops: seq<Op>)
    ensures Valid(Run(ops))
  {
    if ops != [] {
      StoreStaysValid(ops[..|ops| - 1]);
      var db := Run(ops[..|ops| - 1]);
      if Step(db, ops[|ops| - 1]).Some? { StepKeeps(db, ops[|ops| - 1]); }
    }
  }

  // ---- when each operation is taken, and what it does ----

  /** A parent hash is recorded. */
  ghost predicate Recorded(psha: Option<bytes>) { psha.Some? && |psha.value| > 0 }

  /** The parent, if any, is a sent message that takes replies, and the recorded parent
      hash, if any, is its hash or that of one of its batches. */
  ghost predicate ParentGood(db: Db, m: Msg) {
    m.pid.Some? ==>
      m.pid.value in db.msgs &&
      var p := db.msgs[m.pid.value];
      p.hash.Some? && !p.terminal &&
      (Recorded(m.psha) ==>
        m.psha == p.hash ||
        exists b :: b in db.batches && db.batches[b].msg == m.pid.value && db.batches[b].hash == m.psha)
  }

  /** The parent hash a draft is sent with: the recorded one, or else its parent's. */
  ghost function ParentHash(db: Db, m: Msg): Option<bytes>
    requires ParentGood(db, m)
  {
    if Recorded(m.psha) then m.psha else if m.pid.Some? then db.msgs[m.pid.value].hash else None
  }

  ghost predicate NewHash(db: Db, hash: bytes) {
    |hash| == 32 && forall i :: i in db.msgs ==> db.msgs[i].hash != Some(hash)
  }

  /** Some row waits for the message of this hash. */
  ghost predicate Awaited(db: Db, hash: bytes) {
    exists i :: i in db.msgs && db.msgs[i].pid == None && db.msgs[i].psha == Some(hash)
  }

  /** A message that would be its own parent, which no real hash allows. */
  ghost predicate OwnParent(op: Op)
    requires op.StoreMessage?
  {
    op.parent == op.id && op.psha == Some(op.hash) && !op.terminal
  }

  /** The condition under which an operation is taken. */
  ghost predicate Allowed(db: Db, op: Op) {
    match op
    case CreateDraft(id, draft) => id !in db.msgs && ParentGood(db, draft)
    case EditDraft(id, draft) => id in db.msgs && db.msgs[id].hash == None && ParentGood(db, draft)
    case Finalize(id, hash, seals) =>
      id in db.msgs && db.msgs[id].hash == None && NewHash(db, hash) && ParentGood(db, db.msgs[id]) &&
      (Recorded(ParentHash(db, db.msgs[id])) ==> |ParentHash(db, db.msgs[id]).value| == 32) &&
      (forall b :: b in seals <==> b in db.batches && db.batches[b].msg == id && db.batches[b].hash == None)
    case AddBatch(batch, msg, _) => batch !in db.batches && msg in db.msgs && !db.msgs[msg].terminal
    case StoreMessage(id, hash, terminal, psha, parent) =>
      id !in db.msgs && NewHash(db, hash) && !(terminal && Awaited(db, hash)) &&
      (Recorded(psha) ==> ParentGood(db, Msg(None, terminal, Some(parent), psha)) || OwnParent(op))
    case StoreAddTo(id, pid, batch, _) => id !in db.msgs && batch !in db.batches && NewHash(db, pid)
    case Attach(batch, msg, pid, _) =>
      batch !in db.batches && msg in db.msgs && !db.msgs[msg].terminal && db.msgs[msg].hash == Some(pid)
  }

  lemma {:induction false} LinkedIff(db: Db, m: Msg)
    ensures Linked(db, m).Some? <==> ParentGood(db, m)
    ensures ParentGood(db, m) ==>
      Linked(db, m).value == if m.pid.Some? then m.(psha := ParentHash(db, m)) else m
  {
    if m.pid.Some? && m.psha.Some? {
      assert BatchHash(db, m.pid.value, m.psha.value) <==>
        exists b :: b in db.batches && db.batches[b].msg == m.pid.value && db.batches[b].hash == m.psha;
    }
  }

  lemma {:induction false} FinalizeIff(db: Db, id: Id, hash: bytes, seals: map<Id, bytes>)
    ensures FinalizeStep(db, id, hash, seals).Some? <==> Allowed(db, Finalize(id, hash, seals))
  {
    if id in db.msgs { LinkedIff(db, db.msgs[id]); }
    assert seals.Keys == Unsealed(db, id) <==>
      (forall b :: b in seals <==> b in db.batches && db.batches[b].msg == id && db.batches[b].hash == None);
  }

  /** The new row, linked to a parent that is another row, as the trigger sees it. */
  lemma {:induction false} LinkedToOther(db: Db, id: Id, first: Msg, parent: Id)
    requires id !in db.msgs && parent != id && HasParent(first.psha) && first.pid == None
    ensures var db1 := db.(msgs := db.msgs[id := first]);
      var asked := first.(pid := Some(parent));
      (ParentGood(db1, asked) <==> ParentGood(db, asked)) &&
      (ParentGood(db, asked) ==> IsParent(db1, parent, first.psha.value) && Linked(db1, asked) == Some(asked)) &&
      (Linked(db1, asked).Some? ==> ParentGood(db, asked))
  {
    var db1 := db.(msgs := db.msgs[id := first]);
    var asked := first.(pid := Some(parent));
    LinkedIff(db1, asked);
    if ParentGood(db, asked) && asked.psha != db.msgs[parent].hash {
      var b :| b in db.batches && db.batches[b].msg == parent && db.batches[b].hash == asked.psha;
      assert BatchHash(db1, parent, first.psha.value);
    }
  }

  lemma {:induction false} LinkedToSelf(db: Db, id: Id, first: Msg)
    requires BatchesOk(db) && id !in db.msgs && HasParent(first.psha) && first.pid == None && first.hash.Some?
    ensures var db1 := db.(msgs := db.msgs[id := first]);
      var asked := first.(pid := Some(id));
      IsParent(db1, id, first.psha.value) && Linked(db1, asked).Some? <==> first.psha == first.hash && !first.terminal
    ensures first.psha == first.hash && !first.terminal ==>
      Linked(db.(msgs := db.msgs[id := first]), first.(pid := Some(id))) == Some(first.(pid := Some(id)))
  {
  }

  lemma {:induction false} StoreMessageIff(db: Db, id: Id, hash: bytes, terminal: bool, psha: Option<bytes>, parent: Id)
    requires BatchesOk(db)
    ensures StoreMessageStep(db, id, hash, terminal, psha, parent).Some? <==>
            Allowed(db, StoreMessage(id, hash, terminal, psha, parent))
  {
    if id !in db.msgs && HashFree(db, hash) {
      var first := Msg(Some(hash), terminal, None, psha);
      if !HasParent(psha) {
        WaitingAlike(db, id, first, hash);
      } else {
        var m := first.(pid := Some(parent));
        WaitingAlike(db, id, m, hash);
        assert db.msgs[id := first][id := m] == db.msgs[id := m];
        if parent == id { LinkedToSelf(db, id, first); } else { LinkedToOther(db, id, first, parent); }
        assert ParentGood(db, m) == ParentGood(db, Msg(None, terminal, Some(parent), psha));
      }
    }
  }

  lemma {:induction false} StoreAddToIff(db: Db, id: Id, pid: bytes, batch: Id, seal: bytes)
    ensures StoreAddToStep(db, id, pid, batch, seal).Some? <==> Allowed(db, StoreAddTo(id, pid, batch, seal))
  {
  }

  /** In every store a run can reach, an operation is taken if and only if its condition
      holds. */
  lemma {:induction false} TakenIff(db: Db, op: Op)
    requires Valid(db)
    ensures Step(db, op).Some? <==> Allowed(db, op)
  {
    match op
    case CreateDraft(id, draft) => LinkedIff(db, draft.(hash := None));
    case EditDraft(id, draft) => LinkedIff(db, draft.(hash := None));
    case Finalize(id, hash, seals) => FinalizeIff(db, id, hash, seals);
    case AddBatch(_, _, _) =>
    case StoreMessage(id, hash, terminal, psha, parent) => StoreMessageIff(db, id, hash, terminal, psha, parent);
    case StoreAddTo(id, pid, batch, seal) => StoreAddToIff(db, id, pid, batch, seal);
    case Attach(_, _, _, _) =>
  }

  /** Storing and editing a draft changes its row alone: what was asked, unsent, with its
      parent's hash filled in. */
  lemma {:induction false} DraftEffect(db: Db, id: Id, draft: Msg)
    requires PutDraft(db, id, draft).Some?
    ensures var next := PutDraft(db, id, draft).value;
      next.batches == db.batches && next.msgs.Keys == db.msgs.Keys + {id} &&
      (forall i :: i in db.msgs && i != id ==> next.msgs[i] == db.msgs[i]) &&
      ParentGood(db, draft) && next.msgs[id].hash == None && next.msgs[id].terminal == draft.terminal &&
      next.msgs[id].pid == draft.pid &&
      next.msgs[id].psha == if draft.pid.Some? then ParentHash(db, draft) else draft.psha
  {
    LinkedIff(db, draft.(hash := None));
  }

  /** A batch is added alone: sealed, with the message's hash as pid, exactly when the
      message is sent. */
  lemma {:induction false} BatchEffect(db: Db, op: Op)
    requires (op.AddBatch? || op.Attach?) && Step(db, op).Some?
    ensures var next := Step(db, op).value;
      next.msgs == db.msgs && next.batches.Keys == db.batches.Keys + {op.batch} &&
      (forall b :: b in db.batches ==> next.batches[b] == db.batches[b]) &&
      next.batches[op.batch].msg == op.msg &&
      next.batches[op.batch].hash == (if db.msgs[op.msg].hash.Some? then Some(op.seal) else None) &&
      next.batches[op.batch].wirePid == db.msgs[op.msg].hash
  {
  }

  /** An add-to of a message not held makes its row, under the add-to's pid and sent, its
      batch, and the links of the rows that waited for it. */
  lemma {:induction false} StoreAddToEffect(db: Db, id: Id, pid: bytes, batch: Id, seal: bytes)
    requires StoreAddToStep(db, id, pid, batch, seal).Some?
    ensures var next := StoreAddToStep(db, id, pid, batch, seal).value;
      next.batches == db.batches[batch := BatchRow(id, Some(seal), Some(pid))] &&
      next.msgs.Keys == db.msgs.Keys + {id} && next.msgs[id] == Msg(Some(pid), false, None, None) &&
      (forall i :: i in db.msgs ==>
        next.msgs[i] ==
          if db.msgs[i].pid == None && db.msgs[i].psha == Some(pid) then db.msgs[i].(pid := Some(id)) else db.msgs[i])
  {
  }

  /** Storing a received message records it as given, links a reply to a row its
      parent hash names, leaves no row that names the new hash unlinked, and
      changes nothing else. */
  lemma {:induction false} StoreMessageEffect(db: Db, id: Id, hash: bytes, terminal: bool, psha: Option<bytes>,
                                              parent: Id)
    requires StoreMessageStep(db, id, hash, terminal, psha, parent).Some?
    ensures var next := StoreMessageStep(db, id, hash, terminal, psha, parent).value;
      next.batches == db.batches && next.msgs.Keys == db.msgs.Keys + {id} &&
      next.msgs[id].hash == Some(hash) && next.msgs[id].terminal == terminal &&
      next.msgs[id].psha == psha && next.msgs[id].pid == (if HasParent(psha) then Some(parent) else None) &&
      (forall i :: i in next.msgs && next.msgs[i].psha == Some(hash) ==> next.msgs[i].pid.Some?) &&
      (forall i :: i in db.msgs ==>
         next.msgs[i] == db.msgs[i] ||
         (db.msgs[i].pid.None? && db.msgs[i].psha == Some(hash) && next.msgs[i] == db.msgs[i].(pid := Some(id))))
  {
  }

  /** Finalising a draft stamps it and leaves no batch of it unsealed. */
  lemma {:induction false} FinalizeEffect(db: Db, id: Id, hash: bytes, seals: map<Id, bytes>)
    requires FinalizeStep(db, id, hash, seals).Some?
    ensures var next := FinalizeStep(db, id, hash, seals).value;
      next.msgs[id].hash == Some(hash) && next.msgs[id].pid == db.msgs[id].pid && Unsealed(next, id) == {} &&
      next.msgs[id].terminal == db.msgs[id].terminal && ParentGood(db, db.msgs[id]) &&
      next.msgs[id].psha == (if db.msgs[id].pid.Some? then ParentHash(db, db.msgs[id]) else db.msgs[id].psha) &&
      (forall i :: i in db.msgs && i != id ==> i in next.msgs && next.msgs[i] == db.msgs[i]) &&
      (forall b :: b in db.batches && b !in seals ==> next.batches[b] == db.batches[b]) &&
      (forall b :: b in seals ==> next.batches[b] == BatchRow(id, Some(seals[b]), Some(hash)))
  {
    var next := FinalizeStep(db, id, hash, seals).value;
    LinkedIff(db, db.msgs[id]);
    forall b | b in seals ensures next.batches[b] == BatchRow(id, Some(seals[b]), Some(hash)) {
      assert b in Unsealed(db, id);
    }
    forall b | b in next.batches && next.batches[b].msg == id ensures next.batches[b].hash.Some? {
      if b !in seals { assert b !in Unsealed(db, id); }
    }
  }

  /** The message may be stored, as far as its own row and its parent go. */
  ghost predicate Storable(db: Db, id: Id, hash: bytes, psha: Option<bytes>, parent: Id) {
    id !in db.msgs && HashFree(db, hash) &&
    (HasParent(psha) ==> IsParent(db, parent, psha.value) && Sent(db.msgs[parent]) && !db.msgs[parent].terminal)
  }

  /** Such a message is stored if and only if it is not both terminal and already named
      by a row recorded without a link: linking that row would be refused, and
      the whole store with it. */
  lemma {:induction false} StoredIffNoWaitingChild(db: Db, id: Id, hash: bytes, terminal: bool, psha: Option<bytes>,
                                                   parent: Id)
    requires Storable(db, id, hash, psha, parent)
    ensures StoreMessageStep(db, id, hash, terminal, psha, parent).Some? <==> !(terminal && HasPendingChild(db, hash))
  {
    var first := Msg(Some(hash), terminal, None, psha);
    var db1 := db.(msgs := db.msgs[id := first]);
    if HasParent(psha) {
      ParentAdmitted(db, id, first, parent);
      var m := first.(pid := Some(parent));
      WaitingAlike(db, id, m, hash);
      assert db1.(msgs := db1.msgs[id := m]) == db.(msgs := db.msgs[id := m]);
    } else {
      WaitingAlike(db, id, first, hash);
    }
  }

  /** An admissible parent passes the trigger and leaves the recorded hash alone. */
  lemma {:induction false} ParentAdmitted(db: Db, id: Id, first: Msg, parent: Id)
    requires id !in db.msgs && HasParent(first.psha) && IsParent(db, parent, first.psha.value)
    requires Sent(db.msgs[parent]) && !db.msgs[parent].terminal
    ensures var db1 := db.(msgs := db.msgs[id := first]);
      IsParent(db1, parent, first.psha.value) &&
      Linked(db1, first.(pid := Some(parent))) == Some(first.(pid := Some(parent)))
  {
    var db1 := db.(msgs := db.msgs[id := first]);
    assert BatchHash(db1, parent, first.psha.value) == BatchHash(db, parent, first.psha.value);
  }

  /** The new row is not itself waiting, and the others wait as before. */
  lemma {:induction false} WaitingAlike(db: Db, id: Id, m: Msg, hash: bytes)
    requires id !in db.msgs && |hash| == 32 && m.hash == Some(hash) && (m.pid.Some? || !HasParent(m.psha))
    ensures var db1 := db.(msgs := db.msgs[id := m]);
      (HasPendingChild(db1, hash) <==> HasPendingChild(db, hash)) &&
      (GuardPid(db1, id, Some(hash)).None? <==> m.terminal)
  {
    var db1 := db.(msgs := db.msgs[id := m]);
    if HasPendingChild(db, hash) {
      var child :| child in db.msgs && db.msgs[child].pid.None? && db.msgs[child].psha == Some(hash);
      assert db1.msgs[child] == db.msgs[child];
    }
  }

  /** A run that gets there: a draft that names a parent by hash alone, and then that
      parent. It is stored, and the draft linked, if and only if it is not terminal. */
  lemma {:induction false} WaitingChildHappens(hash: bytes, terminal: bool)
    requires |hash| == 32
    ensures var db := Run([CreateDraft(1, Msg(None, false, None, Some(hash)))]);
      HasPendingChild(db, hash) && (Step(db, StoreMessage(2, hash, terminal, None, 0)).None? <==> terminal)
  {
    var child := Msg(None, false, None, Some(hash));
    var ops := [CreateDraft(1, child)];
    assert ops[..0] == [] && Run([]) == Db(map[], map[]);
    var db := Run(ops);
    assert db == Db(map[1 := child], map[]);
    assert 1 in db.msgs && db.msgs[1] == child;
    StoredIffNoWaitingChild(db, 2, hash, terminal, None, 0);
  }

  /** The tables, changed in place by one transaction at a time. */
  class Database {
    var msgs: map<Id, Msg>
    var batches: map<Id, BatchRow>

    constructor ()
      ensures Db(msgs, batches) == Db(map[], map[])
    {
      msgs, batches := map[], map[];
    }

    /** resolvePendingChildLinks, row by row; false when a trigger raises. */
    method ResolvePendingChildLinks(id: Id, hash: bytes) returns (ok: bool)
      requires id in msgs && msgs[id].hash == Some(hash)
      modifies this
      ensures batches == old(batches)
      ensures match ResolveChildren(Db(old(msgs), old(batches)), id, hash)
        case None => !ok
        case Some(db) => ok && msgs == db.msgs
    {
      ghost var db := Db(msgs, batches);
      var todo := msgs.Keys;
      while todo != {}
        invariant batches == old(batches) && msgs.Keys == old(msgs).Keys && todo <= msgs.Keys
        invariant forall i :: i in msgs ==>
          msgs[i] == if i in todo then old(msgs)[i] else LinkChildren(db, id, hash).msgs[i]
        invariant forall i ::
          i in old(msgs) && i !in todo && old(msgs)[i].pid.None? && old(msgs)[i].psha == Some(hash) ==>
          GuardPid(db, id, Some(hash)).Some?
        decreases todo
      {
        var i :| i in todo;
        todo := todo - {i};
        if msgs[i].pid.None? && msgs[i].psha == Some(hash) {
          assert Sent(msgs[id]) == Sent(old(msgs)[id]) && msgs[id].terminal == old(msgs)[id].terminal;
          assert HasPendingChild(db, hash);
          if !Sent(msgs[id]) || msgs[id].terminal { return false; }
          msgs := msgs[i := msgs[i].(pid := Some(id))];
        }
      }
      ok := true;
    }

    /** storeMsgDetail for a message that is not an add-to, rolled back on failure. */
    method StoreReceived(id: Id, hash: bytes, terminal: bool, psha: Option<bytes>, parent: Id) returns (ok: bool)
      modifies this
      ensures match StoreMessageStep(Db(old(msgs), old(batches)), id, hash, terminal, psha, parent)
        case None => !ok && msgs == old(msgs) && batches == old(batches)
        case Some(db) => ok && Db(msgs, batches) == db
    {
      if id in msgs || !HashFree(Db(msgs, batches), hash) { return false; }
      var saved := msgs;
      msgs := msgs[id := Msg(Some(hash), terminal, None, psha)];
      if HasParent(psha) {
        if !IsParent(Db(msgs, batches), parent, psha.value) {
          msgs := saved;
          return false;
        }
        var linked := Linked(Db(msgs, batches), msgs[id].(pid := Some(parent)));
        if linked.None? {
          msgs := saved;
          return false;
        }
        msgs := msgs[id := linked.value];
      }
      ok := ResolvePendingChildLinks(id, hash);
      if !ok { msgs := saved; }
    }
  }
}
