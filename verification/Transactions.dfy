/** Document transactions: operations, their validation, and the coordinator that logs before it applies. */
module Transactions {
  import opened Bytes
  import opened Outcomes
  import opened Utf8
  import opened TextFormat

  type TransactionId = nat

  datatype Float = Finite(value: real) | Infinite | NaN

  datatype Operation =
    | StoreDocumentText(doc: DocumentId, text: Text)
    | DeleteDocumentText(doc: DocumentId)
    | AddPosting(doc: DocumentId, start: nat, length: nat, vector: seq<Float>)
    | RemoveDocument(doc: DocumentId)

  datatype IndexConfig = IndexConfig(hasTextStorage: bool, maxTextSize: nat, vectorSize: nat)

  /** The index is abstract: it has a configuration, and applying an operation may fail half-way. */
  datatype Setup<!I> = Setup(init: I, config: I -> IndexConfig, apply: (I, Operation) -> (I, bool))

  datatype Transaction = Transaction(startTime: nat, ops: seq<Operation>)

  datatype Record = Record(id: TransactionId, ops: seq<Operation>)

  function AllFinite(vector: seq<Float>): bool {
    forall i :: 0 <= i < |vector| ==> vector[i].Finite?
  }

  /** `validate_operation`, run before an operation joins a transaction. */
  function ValidateOperation(op: Operation): Result<()> {
    match op
    case StoreDocumentText(_, text) => if text == [] then Err(InvalidInput("text")) else Ok(())
    case AddPosting(_, start, length, vector) =>
      if length == 0 || start + length >= U32_LIMIT then Err(InvalidPosting)
      else if vector == [] || !AllFinite(vector) then Err(InvalidPosting)
      else Ok(())
    case DeleteDocumentText(_) => Ok(())
    case RemoveDocument(_) => Ok(())
  }

  /** Texts must not be empty; postings need a range that fits 32 bits and a vector of finite components. */
  lemma ValidExactly(op: Operation)
    ensures ValidateOperation(op).Ok? <==>
              && (op.StoreDocumentText? ==> op.text != [])
              && (op.AddPosting? ==>
                    && op.length > 0 && op.start + op.length < U32_LIMIT
                    && op.vector != [] && forall x :: x in op.vector ==> x.Finite?)
    ensures ValidateOperation(op).Err? ==>
              ValidateOperation(op) == Err(if op.StoreDocumentText? then InvalidInput("text") else InvalidPosting)
  {
  }

  /** `validate_operation_for_commit`. */
  function ValidateForCommit(op: Operation, config: IndexConfig): Result<()> {
    match op
    case StoreDocumentText(_, text) =>
      if !config.hasTextStorage then Err(InvalidInput("text_storage"))
      else if |text| > config.maxTextSize then Err(DocumentTooLarge(|text|, config.maxTextSize))
      else Ok(())
    case AddPosting(_, _, _, vector) =>
      if |vector| != config.vectorSize then Err(InvalidDimension(config.vectorSize, |vector|)) else Ok(())
    case DeleteDocumentText(_) => Ok(())
    case RemoveDocument(_) => Ok(())
  }

  /** The first commit-time error among the operations. */
  function ValidateAll(ops: seq<Operation>, config: IndexConfig): Result<()>
    decreases |ops|
  {
    if ops == [] then Ok(())
    else if ValidateForCommit(ops[0], config).Err? then ValidateForCommit(ops[0], config)
    else ValidateAll(ops[1..], config)
  }

  /** Applies operations in order, up to the first that fails. */
  function ApplyOps<I>(setup: Setup<I>, index: I, ops: seq<Operation>): (I, bool)
    decreases |ops|
  {
    if ops == [] then (index, true)
    else
      var (next, ok) := setup.apply(index, ops[0]);
      if ok then ApplyOps(setup, next, ops[1..]) else (next, false)
  }

  predicate Expired(tx: Transaction, now: nat, timeout: nat) {
    tx.startTime <= now && now - tx.startTime > timeout
  }

  datatype Books<I> = Books(active: map<TransactionId, Transaction>, log: seq<Record>, index: I)

  /** What the log segment does with a record: refuse it, take it without a successful sync, or keep it. */
  datatype LogWrite = Refused | Unsynced | Synced

  /** `commit_transaction`: validate everything, log, sync, then apply. */
  function Commit<I>(setup: Setup<I>, b: Books<I>, id: TransactionId, disk: LogWrite): (Books<I>, Result<()>) {
    if id !in b.active then (b, Err(InvalidInput("transaction_id")))
    else
      var ops := b.active[id].ops;
      var taken := b.(active := b.active - {id});
      var checked := ValidateAll(ops, setup.config(b.index));
      if checked.Err? then (taken, checked)
      else if ops == [] || disk.Refused? then (taken, Err(Wal))
      else
        var logged := taken.(log := b.log + [Record(id, ops)]);
        if disk.Unsynced? then (logged, Err(Wal))
        else
          var (index, ok) := ApplyOps(setup, b.index, ops);
          (logged.(index := index), if ok then Ok(()) else Err(Corruption))
  }

  /** Which operations the index takes as it is configured: texts that fit, and vectors of its dimension. */
  lemma {:induction false} ValidateAllExactly(ops: seq<Operation>, config: IndexConfig)
    ensures ValidateAll(ops, config).Ok? <==>
              forall i :: 0 <= i < |ops| ==>
                && (ops[i].StoreDocumentText? ==> config.hasTextStorage && |ops[i].text| <= config.maxTextSize)
                && (ops[i].AddPosting? ==> |ops[i].vector| == config.vectorSize)
    decreases |ops|
  {
    if ops != [] {
      ValidateAllExactly(ops[1..], config);
      assert forall i :: 1 <= i < |ops| ==> ops[i] == ops[1..][i - 1];
    }
  }

  lemma {:induction false} SkipValid(ops: seq<Operation>, config: IndexConfig, k: nat)
    requires k <= |ops| && forall i :: 0 <= i < k ==> ValidateForCommit(ops[i], config).Ok?
    ensures ValidateAll(ops, config) == ValidateAll(ops[k..], config)
  {
    if k > 0 {
      SkipValid(ops, config, k - 1);
      assert ops[k - 1..][1..] == ops[k..];
    }
  }

  /**
   * A commit logs its transaction exactly if that is active, not empty, fits the log, and the index takes each of
   * its operations: a text needs text storage and must not be larger than configured, a vector must have the
   * configured dimension. Otherwise, or if the record is not synced, the index does not change. The transaction is
   * over in every case.
   */
  lemma CommitLogsExactly<I>(setup: Setup<I>, b: Books<I>, id: TransactionId, disk: LogWrite)
    ensures var r := Commit(setup, b, id, disk).0; var config := setup.config(b.index);
            && r.active == b.active - {id}
            && (r.log == b.log || disk.Unsynced? ==> r.index == b.index)
            && (r.log == b.log || (id in b.active && r.log == b.log + [Record(id, b.active[id].ops)]))
            && (r.log != b.log <==>
                  && id in b.active && b.active[id].ops != [] && !disk.Refused?
                  && forall op :: op in b.active[id].ops ==>
                       && (op.StoreDocumentText? ==> config.hasTextStorage && |op.text| <= config.maxTextSize)
                       && (op.AddPosting? ==> |op.vector| == config.vectorSize))
  {
    if id in b.active {
      ValidateAllExactly(b.active[id].ops, setup.config(b.index));
      assert |b.log + [Record(id, b.active[id].ops)]| == |b.log| + 1;
    } else {
      assert b.active - {id} == b.active;
    }
  }

  /** The first operation that the index does not take decides what the commit reports. */
  lemma CommitReportsFirstRefusal<I>(setup: Setup<I>, b: Books<I>, id: TransactionId, disk: LogWrite, k: nat)
    requires id in b.active && k < |b.active[id].ops|
    requires var config := setup.config(b.index);
             forall op :: op in b.active[id].ops[..k] ==>
               && (op.StoreDocumentText? ==> config.hasTextStorage && |op.text| <= config.maxTextSize)
               && (op.AddPosting? ==> |op.vector| == config.vectorSize)
    ensures var config := setup.config(b.index); var result := Commit(setup, b, id, disk).1;
            match b.active[id].ops[k]
            case StoreDocumentText(_, text) =>
              && (!config.hasTextStorage ==> result == Err(InvalidInput("text_storage")))
              && (config.hasTextStorage && |text| > config.maxTextSize ==>
                    result == Err(DocumentTooLarge(|text|, config.maxTextSize)))
            case AddPosting(_, _, _, vector) =>
              |vector| != config.vectorSize ==> result == Err(InvalidDimension(config.vectorSize, |vector|))
            case _ => true
  {
    var (ops, config) := (b.active[id].ops, setup.config(b.index));
    forall i | 0 <= i < k
      ensures ValidateForCommit(ops[i], config).Ok?
    {
      assert ops[i] in ops[..k];
    }
    SkipValid(ops, config, k);
  }

  class Coordinator {
    var active: map<TransactionId, Transaction>
    var wal: seq<Record>
    const timeout: nat
    const maxActive: nat

    constructor (timeout: nat, maxActive: nat)
      ensures active == map[] && wal == [] && this.timeout == timeout && this.maxActive == maxActive
    {
      active, wal := map[], [];
      this.timeout, this.maxActive := timeout, maxActive;
    }

    /** `id` is the generated identifier, `now` the clock. */
    method BeginTransaction(id: TransactionId, now: nat) returns (r: Result<TransactionId>)
      modifies this`active
      ensures if |old(active)| >= maxActive then r.Err? && active == old(active)
              else r == Ok(id) && active == old(active)[id := Transaction(now, [])]
    {
      if |active| >= maxActive {
        return Err(InvalidInput("transaction_count"));
      }
      active := active[id := Transaction(now, [])];
      return Ok(id);
    }

    /** An operation joins if the transaction is active and the operation makes sense on its own. */
    method AddOperation(id: TransactionId, op: Operation) returns (r: Result<()>)
      modifies this`active
      ensures r.Ok? <==>
                && id in old(active)
                && (op.StoreDocumentText? ==> op.text != [])
                && (op.AddPosting? ==>
                      && op.length > 0 && op.start + op.length < U32_LIMIT
                      && op.vector != [] && forall x :: x in op.vector ==> x.Finite?)
      ensures active == if r.Err? then old(active)
                        else old(active)[id := old(active)[id].(ops := old(active)[id].ops + [op])]
    {
      r := CheckOperation(op);
      if r.Err? {
        return;
      }
      if id !in active {
        return Err(InvalidInput("transaction_id"));
      }
      var tx := active[id];
      active := active[id := tx.(ops := tx.ops + [op])];
    }

    method CommitTransaction<I>(setup: Setup<I>, id: TransactionId, index: I, disk: LogWrite)
        returns (r: Result<()>, updated: I)
      modifies this`active, this`wal
      ensures (Books(active, wal, updated), r) == Commit(setup, Books(old(active), old(wal), index), id, disk)
    {
      updated := index;
      if id !in active {
        return Err(InvalidInput("transaction_id")), index;
      }
      var ops := active[id].ops;
      active := active - {id};
      var config := setup.config(index);
      var i := 0;
      while i < |ops|
        invariant 0 <= i <= |ops| && ValidateAll(ops, config) == ValidateAll(ops[i..], config)
      {
        var checked := ValidateForCommit(ops[i], config);
        if checked.Err? {
          return checked, index;
        }
        i := i + 1;
      }
      if ops == [] || disk.Refused? {
        return Err(Wal), index;
      }
      wal := wal + [Record(id, ops)];
      if disk.Unsynced? {
        return Err(Wal), index;
      }
      i := 0;
      while i < |ops|
        invariant 0 <= i <= |ops| && ApplyOps(setup, index, ops) == ApplyOps(setup, updated, ops[i..])
      {
        var (next, ok) := setup.apply(updated, ops[i]);
        updated := next;
        if !ok {
          return Err(Corruption), updated;
        }
        i := i + 1;
      }
      return Ok(()), updated;
    }

    method AbortTransaction(id: TransactionId)
      modifies this`active
      ensures active == old(active) - {id}
    {
      active := active - {id};
    }

    /** What stays is what began at most the timeout ago, or ahead of the clock. */
    method CleanupExpiredTransactions(now: nat)
      modifies this`active
      ensures forall id :: id in active <==> id in old(active) && now <= old(active)[id].startTime + timeout
      ensures forall id :: id in active ==> active[id] == old(active)[id]
    {
      var expired: set<TransactionId> := set id | id in active && Expired(active[id], now, timeout);
      var todo := expired;
      while todo != {}
        invariant todo <= expired
        invariant active == old(active) - (expired - todo)
        decreases todo
      {
        var id :| id in todo;
        AbortTransaction(id);
        todo := todo - {id};
      }
    }

    method CheckOperation(op: Operation) returns (r: Result<()>)
      ensures r == ValidateOperation(op)
    {
      if op.StoreDocumentText? && op.text == [] {
        return Err(InvalidInput("text"));
      }
      if op.AddPosting? {
        if op.length == 0 || op.start + op.length >= U32_LIMIT {
          return Err(InvalidPosting);
        }
        var ok := ValidateVector(op.vector);
        if !ok {
          return Err(InvalidPosting);
        }
      }
      return Ok(());
    }

    /** Checks vector components one by one. */
    method ValidateVector(vector: seq<Float>) returns (ok: bool)
      ensures ok <==> vector != [] && AllFinite(vector)
    {
      if vector == [] {
        return false;
      }
      for i := 0 to |vector|
        invariant AllFinite(vector[..i])
      {
        if !vector[i].Finite? {
          return false;
        }
      }
      assert vector[..|vector|] == vector;
      return true;
    }
  }
}
