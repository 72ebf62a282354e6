/** Non-volatile storage: values become durable on commit; every library call may fail. */
module Nvs {
  import opened CTypes

  datatype Err = Ok | NoFreePages | NewVersionFound | NotFound | Fault(code: Word)

  datatype Key = Key(space: string, name: string)

  datatype Value = U32(n: Word) | Str(s: string)

  type Table = map<Key, Value>

  /** `pending` are values set but not yet committed; a reader sees them over the others. */
  datatype Store = Store(committed: Table, pending: Table) {
    function Visible(): Table {
      committed + pending
    }
  }

  /** What the library answers during one call of the functions below.  A failing set may
      still have taken effect, a failing commit may have written some of the values. */
  datatype NvsIo = NvsIo(init: Err, erase: Err, reinit: Err, open: Err, write: Err, writeLanded: bool,
                         commit: Err, landed: set<Key>, read: Err)

  /** ESP_ERROR_CHECK aborts, and so restarts, the device. */
  datatype Outcome = Returned(err: Err) | Aborted

  function Keeping(t: Table, keys: set<Key>): Table {
    map k | k in t && k in keys :: t[k]
  }

  /** nvs_flash_init, with erasing and a second attempt when the partition asks for it. */
  function Initialized(s: Store, io: NvsIo): (Store, Outcome) {
    if io.init !in {NoFreePages, NewVersionFound} then (s, Returned(io.init))
    else if io.erase != Ok then (s, Aborted)
    else (Store(map[], map[]), Returned(io.reinit))
  }

  function WithSet(s: Store, key: Key, value: Value, io: NvsIo): Store {
    if (io.open == Ok && io.write == Ok) || io.writeLanded then s.(pending := s.pending[key := value]) else s
  }

  function WithCommit(s: Store, io: NvsIo): Store {
    if io.commit == Ok then Store(s.Visible(), map[])
    else s.(committed := s.committed + Keeping(s.pending, io.landed))
  }

  /** save_data_u32_in_flash: every failure ends the call. */
  function SavedU32(s: Store, key: Key, n: Word, io: NvsIo): (Store, Outcome) {
    var (ready, init) := Initialized(s, io);
    if init != Returned(Ok) then (ready, init)
    else if io.open != Ok then (ready, Returned(io.open))
    else
      var written := WithSet(ready, key, U32(n), io);
      if io.write != Ok then (written, Returned(io.write))
      else (WithCommit(written, io), Returned(io.commit))
  }

  /** saved_data_in_flash: an init failure aborts, open and set failures are only printed, and
      the result is that of the commit.  With no handle a set may or may not reach the store. */
  function SavedStr(s: Store, key: Key, text: string, io: NvsIo): (Store, Outcome) {
    var (ready, init) := Initialized(s, io);
    if init != Returned(Ok) then (ready, Aborted)
    else (WithCommit(WithSet(ready, key, Str(text), io), io), Returned(io.commit))
  }

  /** get_saved_data_32_from_flash: 0 for every error, None for an abort. */
  function GotU32(s: Store, key: Key, io: NvsIo): (Store, Option<Word>) {
    var (ready, init) := Initialized(s, io);
    if init == Aborted then (ready, None)
    else
      var t := ready.Visible();
      (ready,
       Some(if init == Returned(Ok) && io.open == Ok && io.read == Ok && key in t && t[key].U32? then t[key].n else 0))
  }

  /** get_saved_data_from_flash, which never erases. */
  function GotStr(s: Store, key: Key, io: NvsIo): Option<string> {
    var t := s.Visible();
    if io.open == Ok && io.read == Ok && key in t && t[key].Str? then Some(t[key].s) else None
  }

  /** A restart keeps what was committed, and whichever pending values had reached flash. */
  function Restarted(s: Store, landed: set<Key>): Store {
    Store(s.committed + Keeping(s.pending, landed), map[])
  }

  // ---------------------------------------------------------------- what the calls promise

  predicate WantsErase(io: NvsIo) {
    io.init == NoFreePages || io.init == NewVersionFound
  }

  /** The partition asks for an erase and that fails. */
  predicate Aborts(io: NvsIo) {
    WantsErase(io) && io.erase != Ok
  }

  /** What the last nvs_flash_init says. */
  function InitAnswer(io: NvsIo): Err {
    if WantsErase(io) then io.reinit else io.init
  }

  /** What is there to work on after initialising. */
  function BaseTable(s: Store, io: NvsIo): Table {
    if WantsErase(io) && io.erase == Ok then map[] else s.Visible()
  }

  function FirstFailure(answers: seq<Err>): Err {
    if answers == [] then Ok else if answers[0] != Ok then answers[0] else FirstFailure(answers[1..])
  }

  lemma {:induction false} FailureCons(first: Err, rest: seq<Err>)
    ensures FirstFailure([first] + rest) == if first != Ok then first else FirstFailure(rest)
  {
    assert ([first] + rest)[1..] == rest;
  }

  lemma {:induction false} FirstOfThree(a: Err, b: Err, c: Err)
    ensures FirstFailure([a, b, c]) == if a != Ok then a else if b != Ok then b else c
  {
    FailureCons(a, [b, c]);
    FailureCons(b, [c]);
    FailureCons(c, []);
    assert [a] + [b, c] == [a, b, c] && [b] + [c] == [b, c] && [c] + [] == [c];
  }

  /** A commit, complete or not, changes nothing for a reader. */
  lemma CommitInvisible(s: Store, io: NvsIo)
    ensures WithCommit(s, io).Visible() == s.Visible()
  {
  }

  /** What a commit makes durable: everything set, or, when it fails, what had reached flash. */
  lemma CommitExactly(s: Store, io: NvsIo, key: Key)
    ensures var after, durable := WithCommit(s, io).committed, io.commit == Ok || key in io.landed;
      && (key in after <==> key in s.committed || (key in s.pending && durable))
      && (key in s.pending && durable ==> after[key] == s.pending[key])
      && (key in s.committed && !(key in s.pending && durable) ==> after[key] == s.committed[key])
  {
  }

  lemma InitExactly(s: Store, io: NvsIo)
    ensures Initialized(s, io).1 == if Aborts(io) then Aborted else Returned(InitAnswer(io))
    ensures Initialized(s, io).0 == if WantsErase(io) && io.erase == Ok then Store(map[], map[]) else s
  {
  }

  lemma {:induction false} SavedU32Outcome(s: Store, key: Key, n: Word, io: NvsIo)
    ensures var answers := [InitAnswer(io), io.open, io.write, io.commit];
      SavedU32(s, key, n, io).1 == if Aborts(io) then Aborted else Returned(FirstFailure(answers))
  {
    FailureCons(InitAnswer(io), [io.open, io.write, io.commit]);
    FirstOfThree(io.open, io.write, io.commit);
    assert [InitAnswer(io)] + [io.open, io.write, io.commit] == [InitAnswer(io), io.open, io.write, io.commit];
    InitExactly(s, io);
  }

  lemma {:induction false} SavedU32Visible(s: Store, key: Key, n: Word, io: NvsIo)
    ensures var took := !Aborts(io) && InitAnswer(io) == Ok && io.open == Ok && (io.write == Ok || io.writeLanded);
      SavedU32(s, key, n, io).0.Visible() == if took then BaseTable(s, io)[key := U32(n)] else BaseTable(s, io)
  {
    InitExactly(s, io);
    CommitInvisible(WithSet(Initialized(s, io).0, key, U32(n), io), io);
  }

  /** A number save from the answers of the library: it aborts only on a failing erase, and
      otherwise returns the first failure, so ESP_OK exactly when nothing fails; and a reader
      then sees the number exactly when it was set. */
  lemma {:induction false} SavedU32Exactly(s: Store, key: Key, n: Word, io: NvsIo)
    ensures var answers := [InitAnswer(io), io.open, io.write, io.commit];
      SavedU32(s, key, n, io).1 == if Aborts(io) then Aborted else Returned(FirstFailure(answers))
    ensures var took := !Aborts(io) && InitAnswer(io) == Ok && io.open == Ok && (io.write == Ok || io.writeLanded);
      SavedU32(s, key, n, io).0.Visible() == if took then BaseTable(s, io)[key := U32(n)] else BaseTable(s, io)
    ensures SavedU32(s, key, n, io).1 == Returned(Ok) ==>
      SavedU32(s, key, n, io).0 == Store(BaseTable(s, io)[key := U32(n)], map[])
  {
    SavedU32Outcome(s, key, n, io);
    SavedU32Visible(s, key, n, io);
  }

  /** A string save from the answers of the library. */
  lemma SavedStrOutcome(s: Store, key: Key, text: string, io: NvsIo)
    ensures SavedStr(s, key, text, io).1 == if Aborts(io) || InitAnswer(io) != Ok then Aborted else Returned(io.commit)
    ensures var took := !Aborts(io) && InitAnswer(io) == Ok && ((io.open == Ok && io.write == Ok) || io.writeLanded);
      SavedStr(s, key, text, io).0.Visible() == if took then BaseTable(s, io)[key := Str(text)] else BaseTable(s, io)
  {
    InitExactly(s, io);
    CommitInvisible(WithSet(Initialized(s, io).0, key, Str(text), io), io);
  }

  /** A number read from the answers of the library: None only on a failing erase; otherwise
      the stored number if nothing failed and there is one, and 0 in every other case, a
      missing key included. */
  lemma GotU32Exactly(s: Store, key: Key, io: NvsIo)
    ensures GotU32(s, key, io).0 == if WantsErase(io) && io.erase == Ok then Store(map[], map[]) else s
    ensures var t, answers := BaseTable(s, io), [InitAnswer(io), io.open, io.read];
      && (GotU32(s, key, io).1 == None <==> Aborts(io))
      && (!Aborts(io) && FirstFailure(answers) == Ok && key in t && t[key].U32? ==> GotU32(s, key, io).1 == Some(t[key].n))
      && (!Aborts(io) && (FirstFailure(answers) != Ok || key !in t || !t[key].U32?) ==> GotU32(s, key, io).1 == Some(0))
  {
    FirstOfThree(InitAnswer(io), io.open, io.read);
    InitExactly(s, io);
  }

  /** What a restart leaves of every key: the committed value, unless a pending one had
      reached flash. */
  lemma RestartExactly(s: Store, landed: set<Key>, key: Key)
    ensures var after := Restarted(s, landed);
      && after.pending == map[]
      && (key in after.committed <==> key in s.committed || (key in s.pending && key in landed))
      && (key in s.pending && key in landed ==> after.committed[key] == s.pending[key])
      && (key in s.committed && !(key in s.pending && key in landed) ==> after.committed[key] == s.committed[key])
  {
  }

  /** ESP_OK from save_data_u32_in_flash means durable: after any restart, a read without a
      fault or a renewed erase gives the value back. */
  lemma SavedU32Survives(s: Store, key: Key, n: Word, io: NvsIo, landed: set<Key>, later: NvsIo)
    requires SavedU32(s, key, n, io).1 == Returned(Ok)
    requires later.init == later.open == later.read == Ok
    ensures GotU32(Restarted(SavedU32(s, key, n, io).0, landed), key, later).1 == Some(n)
    ensures GotU32(SavedU32(s, key, n, io).0, key, later).1 == Some(n)
  {
  }

  /** ESP_OK from saved_data_in_flash means less: the text is durable exactly when the handle
      was opened and the value set, or the set took effect despite its error, or the text had
      been there before. */
  lemma SavedStrExactly(s: Store, key: Key, text: string, io: NvsIo)
    requires SavedStr(s, key, text, io).1 == Returned(Ok)
    ensures var before, after := Initialized(s, io).0.Visible(), SavedStr(s, key, text, io).0.committed;
      key in after && after[key] == Str(text) <==>
        || (io.open == Ok && io.write == Ok) || io.writeLanded
        || (key in before && before[key] == Str(text))
  {
  }

  /** Such a misleading ESP_OK: the set fails, the commit of nothing succeeds. */
  lemma SavedStrCanMislead(s: Store, key: Key, text: string)
    requires key !in s.Visible()
    ensures exists io: NvsIo :: (&& io.open == Ok && io.write != Ok && io.commit == Ok
                                 && SavedStr(s, key, text, io).1 == Returned(Ok)
                                 && key !in SavedStr(s, key, text, io).0.Visible())
  {
    var io := NvsIo(Ok, Ok, Ok, Ok, Fault(1), false, Ok, {}, Ok);
    assert SavedStr(s, key, text, io).1 == Returned(Ok);
    assert key !in SavedStr(s, key, text, io).0.Visible();
  }

  /** What a faultless read sees behind a save that did not abort, whatever the save returned:
      the text exactly when the set took effect or the text had been there before. */
  lemma SavedStrReadsBack(s: Store, key: Key, text: string, io: NvsIo, read: NvsIo)
    requires SavedStr(s, key, text, io).1 != Aborted
    requires read.open == read.read == Ok
    ensures var before := Initialized(s, io).0.Visible();
      GotStr(SavedStr(s, key, text, io).0, key, read) == Some(text) <==>
        || (io.open == Ok && io.write == Ok) || io.writeLanded
        || (key in before && before[key] == Str(text))
  {
    CommitInvisible(WithSet(Initialized(s, io).0, key, Str(text), io), io);
  }

  /** A save touches no other key, unless the partition had to be erased: then every other
      value is gone, committed or not. */
  lemma SavedU32Frame(s: Store, key: Key, n: Word, io: NvsIo, other: Key)
    requires other != key
    ensures var after := SavedU32(s, key, n, io).0.Visible();
      if io.init in {NoFreePages, NewVersionFound} && io.erase == Ok then other !in after
      else (other in after <==> other in s.Visible()) && (other in after ==> after[other] == s.Visible()[other])
  {
  }

  // ---------------------------------------------------------------- the code

  class NvsFlash {
    var committed: Table
    var pending: Table

    function View(): Store
      reads this
    {
      Store(committed, pending)
    }

    constructor (initial: Store)
      ensures View() == initial
    {
      committed, pending := initial.committed, initial.pending;
    }

    method InitNvs(io: NvsIo) returns (outcome: Outcome)
      modifies this
      ensures (View(), outcome) == Initialized(old(View()), io)
    {
      var ret := io.init;
      if ret == NoFreePages || ret == NewVersionFound {
        if io.erase != Ok {
          return Aborted;
        }
        committed, pending := map[], map[];
        ret := io.reinit;
      }
      return Returned(ret);
    }

    /** The flash after a restart. */
    method Restart(landed: set<Key>)
      modifies this
      ensures View() == Restarted(old(View()), landed)
    {
      committed, pending := committed + Keeping(pending, landed), map[];
    }

    /** nvs_set_u32 or nvs_set_str */
    method Set(key: Key, value: Value, io: NvsIo) returns (err: Err)
      modifies this
      ensures View() == WithSet(old(View()), key, value, io) && err == io.write
    {
      if (io.open == Ok && io.write == Ok) || io.writeLanded {
        pending := pending[key := value];
      }
      return io.write;
    }

    method Commit(io: NvsIo) returns (err: Err)
      modifies this
      ensures View() == WithCommit(old(View()), io) && err == io.commit
    {
      if io.commit == Ok {
        committed, pending := committed + pending, map[];
      } else {
        committed := committed + Keeping(pending, io.landed);
      }
      return io.commit;
    }

    method SaveDataU32InFlash(key: Key, n: Word, io: NvsIo) returns (outcome: Outcome)
      modifies this
      ensures (View(), outcome) == SavedU32(old(View()), key, n, io)
    {
      outcome := InitNvs(io);
      if outcome != Returned(Ok) {
        return;
      }
      var err := io.open;
      if err != Ok {
        return Returned(err);
      }
      err := Set(key, U32(n), io);
      if err != Ok {
        return Returned(err);
      }
      err := Commit(io);
      if err != Ok {
        return Returned(err);
      }
      return Returned(Ok);
    }

    method SavedDataInFlash(key: Key, text: string, io: NvsIo) returns (outcome: Outcome)
      modifies this
      ensures (View(), outcome) == SavedStr(old(View()), key, text, io)
    {
      outcome := InitNvs(io);
      if outcome != Returned(Ok) {
        return Aborted;
      }
      var err := Set(key, Str(text), io);
      err := Commit(io);
      return Returned(err);
    }

    method GetSavedData32FromFlash(key: Key, io: NvsIo) returns (value: Option<Word>)
      modifies this
      ensures (View(), value) == GotU32(old(View()), key, io)
    {
      var outcome := InitNvs(io);
      if outcome == Aborted {
        return None;
      }
      if outcome != Returned(Ok) || io.open != Ok {
        return Some(0);
      }
      var visible := committed + pending;
      if io.read == Ok && key in visible && visible[key].U32? {
        return Some(visible[key].n);
      }
      return Some(0);
    }

    method GetSavedDataFromFlash(key: Key, io: NvsIo) returns (text: Option<string>)
      ensures text == GotStr(View(), key, io)
    {
      if io.open != Ok {
        return None;
      }
      var visible := committed + pending;
      if io.read == Ok && key in visible && visible[key].Str? {
        return Some(visible[key].s);
      }
      return None;
    }
  }
}
