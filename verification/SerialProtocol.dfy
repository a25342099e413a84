/** The reader and the writer of the serial terminal as interleaved threads. */
module SerialProtocol {
  import opened SerialRing

  // The two threads interleave at every step; serial_lock and serial_block are counters.

  /** Where serial_pdx_read is; `size` is the room in its caller's buffer. */
  datatype Reader =
    | Away                    // not called
    | Entering(size: nat)     // before SemWait(serial_lock)
    | Looking(size: nat)      // before the test for an empty buffer
    | Marking(size: nat)      // before serial_blocked = 1
    | Leaving(size: nat)      // before SemSignal(serial_lock)
    | Sleeping(size: nat)     // before or in SemWait(serial_block)
    | Returning(size: nat)    // before SemWait(serial_lock), woken
    | Checking(size: nat)     // before the assertion
    | Copying(size: nat)      // before the copy
    | Finishing               // before the last SemSignal(serial_lock)

  /** Where serial_loop is, with the character it has received. */
  datatype Writer =
    | Waiting                 // in serial_waitchar
    | Arriving(c: char)       // before SemWait(serial_lock)
    | Testing(c: char)        // before the test for a full buffer
    | Storing(c: char)        // before the character is put in
    | Waking                  // before the test of serial_blocked
    | Signalling              // serial_blocked cleared, before SemSignal(serial_block)
    | Releasing               // before SemSignal(serial_lock)

  /** `accepted` and `delivered` are the characters put into the buffer and copied out of it so far. */
  datatype State = State(
    ring: Ring, blocked: bool, lock: nat, block: nat,
    reader: Reader, writer: Writer,
    accepted: seq<char>, delivered: seq<char>)

  predicate Init(s: State) {
    && |s.ring.buf| == SERIAL_BUF_SIZE && s.ring.write_pos == 0 && s.ring.read_pos == 0
    && !s.blocked && s.lock == 1 && s.block == 0
    && s.reader == Away && s.writer == Waiting
    && s.accepted == [] && s.delivered == []
  }

  datatype Action = Call(size: nat) | Key(c: char) | ReaderStep | WriterStep

  /** serial_waitchar turns a carriage return into a newline. */
  function Received(c: char): char {
    if c == '\r' then '\n' else c
  }

  /** Whether the thread can go on: SemWait needs a count. */
  predicate Enabled(s: State, a: Action) {
    match a
    case Call(_) => s.reader == Away
    case Key(_) => s.writer == Waiting
    case ReaderStep =>
      (match s.reader
       case Away => false
       case Entering(_) => s.lock > 0
       case Returning(_) => s.lock > 0
       case Sleeping(_) => s.block > 0
       case _ => true)
    case WriterStep =>
      (match s.writer
       case Waiting => false
       case Arriving(_) => s.lock > 0
       case _ => true)
  }

  function Next(s: State, a: Action): State
    requires Enabled(s, a) && InBounds(s.ring)
  {
    match a
    case Call(size) => s.(reader := Entering(size))
    case Key(c) => s.(writer := Arriving(Received(c)))
    case ReaderStep => ReaderNext(s)
    case WriterStep => WriterNext(s)
  }

  function ReaderNext(s: State): State
    requires Enabled(s, ReaderStep) && InBounds(s.ring)
  {
    match s.reader
    case Entering(size) => s.(lock := s.lock - 1, reader := Looking(size))
    case Looking(size) =>
      s.(reader := if s.ring.read_pos == s.ring.write_pos then Marking(size) else Copying(size))
    case Marking(size) => s.(blocked := true, reader := Leaving(size))
    case Leaving(size) => s.(lock := s.lock + 1, reader := Sleeping(size))
    case Sleeping(size) => s.(block := s.block - 1, reader := Returning(size))
    case Returning(size) => s.(lock := s.lock - 1, reader := Checking(size))
    case Checking(size) => s.(reader := Copying(size))
    case Copying(size) =>
      var t := TakeFirst(s.ring, size);
      s.(ring := t.ring, delivered := s.delivered + t.out, reader := Finishing)
    case Finishing => s.(lock := s.lock + 1, reader := Away)
  }

  function WriterNext(s: State): State
    requires Enabled(s, WriterStep) && InBounds(s.ring)
  {
    match s.writer
    case Arriving(c) => s.(lock := s.lock - 1, writer := Testing(c))
    case Testing(c) => s.(writer := if Full(s.ring) then Releasing else Storing(c))
    case Storing(c) => s.(ring := Put(s.ring, c), accepted := s.accepted + [c], writer := Waking)
    case Waking => if s.blocked then s.(blocked := false, writer := Signalling) else s.(writer := Releasing)
    case Signalling => s.(block := s.block + 1, writer := Releasing)
    case Releasing => s.(lock := s.lock + 1, writer := Waiting)
  }

  // ---------------------------------------------------------------- what every step keeps

  predicate ReaderHolds(r: Reader) {
    r.Looking? || r.Marking? || r.Leaving? || r.Checking? || r.Copying? || r.Finishing?
  }

  predicate WriterHolds(w: Writer) {
    !w.Waiting? && !w.Arriving?
  }

  predicate Empty(s: State) {
    s.ring.read_pos == s.ring.write_pos
  }

  /** The lock is free or held by one of the two threads. */
  ghost predicate Exclusive(s: State) {
    s.lock + (if ReaderHolds(s.reader) then 1 else 0) + (if WriterHolds(s.writer) then 1 else 0) == 1
  }

  /** A reader that is going to sleep is either marked as blocked, or the writer is about to signal
      it, or the signal is there; one of these and no more. Otherwise none of them. */
  ghost predicate OneWakeup(s: State) {
    (if s.blocked then 1 else 0) + (if s.writer == Signalling then 1 else 0) + s.block ==
    (if s.reader.Leaving? || s.reader.Sleeping? then 1 else 0)
  }

  /** Where each thread stands says what is known of the buffer. */
  ghost predicate Informed(s: State) {
    && (s.reader.Marking? ==> Empty(s))
    && (s.blocked && s.writer != Waking ==> Empty(s))
    && (s.writer == Signalling || s.block > 0 || s.reader.Returning? || s.reader.Checking? || s.reader.Copying? ==>
        !Empty(s))
    && (s.writer.Storing? ==> !Full(s.ring))
    && (s.writer == Waking ==> !Empty(s))
  }

  /** What was accepted has been delivered or is in the buffer, in order. */
  ghost predicate Conserved(s: State) {
    InBounds(s.ring) && s.accepted == s.delivered + Content(s.ring)
  }

  ghost predicate Inv(s: State) {
    Conserved(s) && Exclusive(s) && OneWakeup(s) && Informed(s)
  }

  lemma InitInv(s: State)
    requires Init(s)
    ensures Inv(s)
  {
  }

  lemma ReaderKeepsInv(s: State)
    requires Inv(s) && Enabled(s, ReaderStep)
    ensures Inv(ReaderNext(s))
  {
    if s.reader.Copying? {
      TakeTakesPrefix(s.ring, s.reader.size);
      var t := TakeFirst(s.ring, s.reader.size);
      assert s.delivered + t.out + Content(t.ring) == s.delivered + (t.out + Content(t.ring));
    }
  }

  lemma WriterKeepsInv(s: State)
    requires Inv(s) && Enabled(s, WriterStep)
    ensures Inv(WriterNext(s))
  {
    if s.writer.Storing? {
      PutAppends(s.ring, s.writer.c);
      assert s.delivered + Content(s.ring) + [s.writer.c] == s.delivered + (Content(s.ring) + [s.writer.c]);
    }
  }

  lemma StepKeepsInv(s: State, a: Action)
    requires Inv(s) && Enabled(s, a)
    ensures Inv(Next(s, a))
  {
    match a
    case ReaderStep => ReaderKeepsInv(s);
    case WriterStep => WriterKeepsInv(s);
    case _ =>
  }

  // ---------------------------------------------------------------- runs

  /** A run: each state follows from the one before by an enabled action. */
  ghost predicate Run(states: seq<State>, actions: seq<Action>) {
    && |states| == |actions| + 1 && Init(states[0])
    && forall i :: 0 <= i < |actions| ==>
         InBounds(states[i].ring) && Enabled(states[i], actions[i]) && states[i + 1] == Next(states[i], actions[i])
  }

  lemma {:induction false} RunsKeepInv(states: seq<State>, actions: seq<Action>, i: nat)
    requires Run(states, actions) && i < |states|
    ensures Inv(states[i])
  {
    if i == 0 {
      InitInv(states[0]);
    } else {
      RunsKeepInv(states, actions, i - 1);
      StepKeepsInv(states[i - 1], actions[i - 1]);
    }
  }

  /** In every state of every run: what has been delivered is a prefix of what was accepted, and at
      most 41 characters are in between. */
  lemma DeliveredIsPrefix(states: seq<State>, actions: seq<Action>, i: nat)
    requires Run(states, actions) && i < |states|
    ensures states[i].delivered <= states[i].accepted
    ensures |states[i].accepted| - |states[i].delivered| <= SERIAL_BUF_SIZE - 1
  {
    RunsKeepInv(states, actions, i);
    FullMeans(states[i].ring);
  }

  // ---------------------------------------------------------------- what is accepted

  /** The key that an action presses, a return taken as a new line. */
  function KeyOf(a: Action): seq<char> {
    match a
    case Key(c) => [if c == '\r' then '\n' else c]
    case _ => []
  }

  /** The answer to a test that the writer makes: whether there is room, with fewer than 41 characters waiting. */
  function TestOf(s: State, a: Action): seq<bool> {
    if a == WriterStep && s.writer.Testing? then [|s.accepted| - |s.delivered| < 41] else []
  }

  /** The keys that were pressed. */
  function Typed(actions: seq<Action>): seq<char> {
    if actions == [] then []
    else
      var n := |actions| - 1;
      Typed(actions[..n]) + KeyOf(actions[n])
  }

  /** The answers to all tests. */
  function Tests(states: seq<State>, actions: seq<Action>): (r: seq<bool>)
    requires |states| == |actions| + 1
  {
    if actions == [] then []
    else
      var n := |actions| - 1;
      Tests(states[..n + 1], actions[..n]) + TestOf(states[n], actions[n])
  }

  /** The characters with the answer yes. */
  function Chosen(keys: seq<char>, yes: seq<bool>): seq<char>
    requires |keys| >= |yes|
  {
    if yes == [] then []
    else
      var n := |yes| - 1;
      Chosen(keys[..n], yes[..n]) + if yes[n] then [keys[n]] else []
  }

  /** The keys the writer has taken in but not tested, and those it has tested but not stored. */
  function Untested(w: Writer): seq<char> {
    match w
    case Arriving(c) => [c]
    case Testing(c) => [c]
    case _ => []
  }

  function Unstored(w: Writer): seq<char> {
    match w
    case Storing(c) => [c]
    case _ => []
  }

  lemma {:induction false} ChosenOfPrefix(keys: seq<char>, more: seq<char>, yes: seq<bool>)
    requires |keys| >= |yes|
    ensures Chosen(keys + more, yes) == Chosen(keys, yes)
  {
    if yes != [] {
      var n := |yes| - 1;
      assert (keys + more)[..n] == keys[..n] + [];
      ChosenOfPrefix(keys[..n], [], yes[..n]);
    }
  }

  /** Keys tested so far, and the one that is not: what the writer has accepted are the keys with room when
      they were tested. */
  ghost predicate Accounted(s: State, keys: seq<char>, yes: seq<bool>) {
    && |keys| >= |yes| && keys[|yes|..] == Untested(s.writer)
    && s.accepted + Unstored(s.writer) == Chosen(keys, yes)
  }

  lemma AccountKey(s: State, c: char, keys: seq<char>, yes: seq<bool>)
    requires Enabled(s, Key(c)) && InBounds(s.ring) && Accounted(s, keys, yes)
    ensures Accounted(Next(s, Key(c)), keys + KeyOf(Key(c)), yes)
  {
    var key := KeyOf(Key(c));
    ChosenOfPrefix(keys, key, yes);
    assert (keys + key)[|yes|..] == keys[|yes|..] + key;
  }

  lemma AccountTest(s: State, keys: seq<char>, yes: seq<bool>)
    requires Conserved(s) && s.writer.Testing? && Enabled(s, WriterStep) && Accounted(s, keys, yes)
    ensures Accounted(WriterNext(s), keys, yes + TestOf(s, WriterStep))
  {
    hide Content;
    FullMeans(s.ring);
    var test := TestOf(s, WriterStep);
    assert (yes + test)[..|yes|] == yes;
    assert keys == keys[..|yes|] + keys[|yes|..];
    ChosenOfPrefix(keys[..|yes|], keys[|yes|..], yes);
  }

  lemma AccountWriter(s: State, keys: seq<char>, yes: seq<bool>)
    requires !s.writer.Testing? && Enabled(s, WriterStep) && InBounds(s.ring) && Accounted(s, keys, yes)
    ensures Accounted(WriterNext(s), keys, yes)
  {
    hide Content, Chosen;
    if s.writer.Storing? {
      assert s.accepted + [s.writer.c] + [] == s.accepted + [s.writer.c];
    }
  }

  lemma AccountReader(s: State, keys: seq<char>, yes: seq<bool>)
    requires Enabled(s, ReaderStep) && InBounds(s.ring) && Accounted(s, keys, yes)
    ensures Accounted(ReaderNext(s), keys, yes)
  {
    hide Content, Chosen, TakeFirst;
  }

  lemma AccountStep(s: State, a: Action, keys: seq<char>, yes: seq<bool>)
    requires Inv(s) && Enabled(s, a) && Accounted(s, keys, yes)
    ensures Accounted(Next(s, a), keys + KeyOf(a), yes + TestOf(s, a))
  {
    hide Enabled, Accounted, ReaderNext, WriterNext, Exclusive, OneWakeup, Informed, Content;
    assert keys + [] == keys && yes + [] == yes;
    match a
    case Key(c) => AccountKey(s, c, keys, yes);
    case WriterStep =>
      if s.writer.Testing? {
        AccountTest(s, keys, yes);
      } else {
        AccountWriter(s, keys, yes);
      }
    case ReaderStep => AccountReader(s, keys, yes);
    case Call(size) => AccountCall(s, size, keys, yes);
  }

  lemma AccountCall(s: State, size: nat, keys: seq<char>, yes: seq<bool>)
    requires Enabled(s, Call(size)) && InBounds(s.ring) && Accounted(s, keys, yes)
    ensures Accounted(Next(s, Call(size)), keys, yes)
  {
  }

  /** In every state of every run: the accepted characters are the keys that were pressed, in order and a return
      as a new line, less exactly those that were tested while 41 characters were waiting, and less the one that
      the writer still holds. */
  lemma {:induction false} AcceptedAreKeys(states: seq<State>, actions: seq<Action>)
    requires Run(states, actions)
    ensures var s, keys, yes := states[|actions|], Typed(actions), Tests(states, actions);
            && |yes| <= |keys| <= |yes| + |Untested(s.writer)| && |Untested(s.writer)| + |Unstored(s.writer)| <= 1
            && keys[|yes|..] == Untested(s.writer)
            && s.accepted + Unstored(s.writer) == Chosen(keys[..|yes|], yes)
  {
    hide Inv, Next, Enabled;
    AccountRun(states, actions);
    var keys, yes := Typed(actions), Tests(states, actions);
    ChosenOfPrefix(keys[..|yes|], keys[|yes|..], yes);
    assert keys == keys[..|yes|] + keys[|yes|..];
  }

  lemma {:induction false} AccountRun(states: seq<State>, actions: seq<Action>)
    requires Run(states, actions)
    ensures Accounted(states[|actions|], Typed(actions), Tests(states, actions))
  {
    if actions != [] {
      hide Inv, Next, Enabled, Accounted;
      var n := |actions| - 1;
      RunPrefix(states, actions);
      AccountRun(states[..n + 1], actions[..n]);
      RunsKeepInv(states, actions, n);
      AccountStep(states[n], actions[n], Typed(actions[..n]), Tests(states[..n + 1], actions[..n]));
    }
  }

  lemma RunPrefix(states: seq<State>, actions: seq<Action>)
    requires Run(states, actions) && actions != []
    ensures var n := |actions| - 1;
            && Run(states[..n + 1], actions[..n]) && InBounds(states[n].ring) && Enabled(states[n], actions[n])
            && states[n + 1] == Next(states[n], actions[n])
  {
  }

  /** In every state of every run: the assertion of the woken reader holds, and the reader sleeps
      while there is data only if its signal is there or the writer is about to send it. */
  lemma NoLostWakeup(states: seq<State>, actions: seq<Action>, i: nat)
    requires Run(states, actions) && i < |states|
    ensures var s := states[i];
            && (s.reader.Checking? ==> s.ring.read_pos != s.ring.write_pos)
            && (s.reader.Sleeping? && !Empty(s) ==>
                  s.block > 0 || s.writer == Signalling || (s.writer == Waking && s.blocked))
  {
    RunsKeepInv(states, actions, i);
  }

  /** In every state of every run: a reader that copies finds data, and never has to copy twice. */
  lemma SecondCopyNeverTaken(states: seq<State>, actions: seq<Action>, i: nat)
    requires Run(states, actions) && i < |states| && states[i].reader.Copying?
    ensures InBounds(states[i].ring)
    ensures var t := TakeFirst(states[i].ring, states[i].reader.size);
            !NeedsSecond(t.ring, states[i].reader.size, |t.out|) && (states[i].reader.size > 0 ==> t.out != [])
  {
    RunsKeepInv(states, actions, i);
    TakeTakesPrefix(states[i].ring, states[i].reader.size);
  }

  /** In every state of every run: a character is refused exactly when 41 are waiting. */
  lemma RefusedOnlyWhenFull(states: seq<State>, actions: seq<Action>, i: nat)
    requires Run(states, actions) && i < |states| && states[i].writer.Testing?
    ensures InBounds(states[i].ring)
    ensures Next(states[i], WriterStep).writer == Releasing <==>
            |states[i].accepted| - |states[i].delivered| == SERIAL_BUF_SIZE - 1
  {
    RunsKeepInv(states, actions, i);
    FullMeans(states[i].ring);
  }

  /** The two threads never block each other: if neither can take a step of its own, then the writer
      waits for a key and the reader is not called, or sleeps with nothing to read. */
  lemma NoDeadlock(states: seq<State>, actions: seq<Action>, i: nat)
    requires Run(states, actions) && i < |states|
    requires !Enabled(states[i], ReaderStep) && !Enabled(states[i], WriterStep)
    ensures states[i].writer == Waiting
    ensures states[i].reader == Away || (states[i].reader.Sleeping? && Empty(states[i]))
  {
    RunsKeepInv(states, actions, i);
  }

  /** How many steps of its own the writer needs at most before it waits for a key again. */
  function WriterLeft(w: Writer): nat {
    match w
    case Waiting => 0
    case Releasing => 1
    case Signalling => 2
    case Waking => 3
    case Storing(_) => 4
    case Testing(_) => 5
    case Arriving(_) => 6
  }

  /** A reader asleep beside data is woken: as long as its signal is not there the writer can go on,
      its own steps bring it closer to sending it, and no step of the reader or call intervenes. */
  lemma WakeupComes(states: seq<State>, actions: seq<Action>, i: nat)
    requires Run(states, actions) && i < |states|
    requires states[i].reader.Sleeping? && !Empty(states[i]) && states[i].block == 0
    ensures InBounds(states[i].ring) && Enabled(states[i], WriterStep) && !Enabled(states[i], ReaderStep)
    ensures var s' := WriterNext(states[i]);
            s'.reader == states[i].reader && !Empty(s') &&
                (s'.block > 0 || WriterLeft(s'.writer) < WriterLeft(states[i].writer) <= 3)
  {
    RunsKeepInv(states, actions, i);
  }
}
