/** The agent's own update (agent/src/updater.rs) and the restart wrapper that completes it on Windows
    (backend/routers/agents.py): file operations that can fail, and crashes between any two of them. */
module BinarySwap {
  import opened Options
  import Text

  // ---- What is accepted for installation ----

  /** The hash and signature functions, and the key of the configuration. */
  datatype Trust = Trust(sha: string -> string, verifies: (string, string, string) -> bool, publicKey: string)

  /** A server's version answer with the bytes it serves. */
  datatype Offer = Offer(hash: string, signature: Option<string>, data: string)

  predicate IsHex(s: string) {
    s != "" && |s| % 2 == 0
    && forall c <- s :: '0' <= c <= '9' || 'a' <= c <= 'f' || 'A' <= c <= 'F'
  }

  /** The bytes have the announced hash and, if a key is configured, a signature that verifies. */
  predicate Verified(t: Trust, offer: Offer) {
    && t.sha(offer.data) == Text.Strip(offer.hash)
    && (Text.Strip(t.publicKey) == "" ||
        match offer.signature
        case Some(sig) => Text.Strip(sig) != "" && t.verifies(Text.Strip(t.publicKey), Text.Strip(sig), offer.data)
        case None => false)
  }

  /** Whether an offer is installed over the current bytes. */
  predicate Accepted(t: Trust, current: string, offer: Offer) {
    IsHex(Text.Strip(offer.hash)) && t.sha(current) != Text.Strip(offer.hash) && Verified(t, offer)
  }

  // ---- Files ----

  /** Torn: a file that was only written in part. */
  datatype Content = Absent | Torn | Whole(bytes: string)

  /** nodeglow-agent.exe and its .new and .old beside it. */
  datatype Disk = Disk(exe: Content, staged: Content, previous: Content)

  function RemoveOld(d: Disk, ok: bool): Disk {
    if ok then d.(previous := Absent) else d
  }

  /** Rust's rename replaces the target. */
  function RenameExeToOld(d: Disk, ok: bool): Disk {
    if ok && d.exe != Absent then d.(exe := Absent, previous := d.exe) else d
  }

  function RenameStagedToExe(d: Disk, ok: bool): Disk {
    if ok && d.staged != Absent then d.(staged := Absent, exe := d.staged) else d
  }

  /** The shell's ren refuses an existing target. */
  function RenExeToOld(d: Disk, ok: bool): Disk {
    if d.previous == Absent then RenameExeToOld(d, ok) else d
  }

  function RenStagedToExe(d: Disk, ok: bool): Disk {
    if d.exe == Absent then RenameStagedToExe(d, ok) else d
  }

  // ---- The Windows agent and its wrapper, one file operation at a time ----

  datatype Pc =
    | Boot | DelOld | RenOld | RenNew | Launch | AfterExit   // the wrapper
    | Running                                                // the agent's main loop
    | Write(data: string) | Remove | MoveOld | MoveNew       // apply_update

  datatype State = State(pc: Pc, disk: Disk)

  /** Go: the next operation happens, and succeeds or fails. Tear: the write of .new breaks off, leaving
      a part of the file. Crash: everything stops, and the machine comes up again at the wrapper. */
  datatype Event = Go(ok: bool) | Tear | Crash | Exit | Update(offer: Offer)

  function Step(t: Trust, s: State, e: Event): State {
    var d := s.disk;
    match (s.pc, e)
    case (_, Crash) => s.(pc := Boot)
    case (Boot, Go(_)) => s.(pc := if d.staged != Absent then DelOld else Launch)
    case (DelOld, Go(ok)) => State(RenOld, RemoveOld(d, ok))
    case (RenOld, Go(ok)) => State(RenNew, RenExeToOld(d, ok))
    case (RenNew, Go(ok)) => State(Launch, RenStagedToExe(d, ok))
    case (Launch, Go(_)) => s.(pc := if d.exe.Whole? then Running else AfterExit)
    case (AfterExit, Go(ok)) => State(Boot, RemoveOld(d, ok))
    case (Running, Exit) => s.(pc := AfterExit)
    case (Running, Update(offer)) =>
      if d.exe.Whole? && Accepted(t, d.exe.bytes, offer) then s.(pc := Write(offer.data)) else s
    case (Write(data), Go(ok)) => if ok then State(Remove, d.(staged := Whole(data))) else s.(pc := Running)
    case (Write(data), Tear) => State(Running, d.(staged := Torn))
    case (Remove, Go(ok)) => State(MoveOld, RemoveOld(d, ok))
    case (MoveOld, Go(ok)) =>
      var d' := RenameExeToOld(d, ok);
      State(if d' == d then AfterExit else MoveNew, d')
    case (MoveNew, Go(ok)) =>
      var d' := RenameStagedToExe(d, ok);
      State(if d' == d then Running else AfterExit, d')
    case _ => s
  }

  ghost function After(t: Trust, first: string, events: seq<Event>): State {
    if events == [] then State(Running, Disk(Whole(first), Absent, Absent))
    else Step(t, After(t, first, events[..|events| - 1]), events[|events| - 1])
  }

  /** A complete binary is where the wrapper can start or install it. */
  ghost predicate Recoverable(d: Disk) {
    d.exe.Whole? || d.staged.Whole?
  }

  /** The wrapper moves the executable away although the staged file is torn. */
  ghost predicate MovesExeForTornFile(s: State, e: Event) {
    s.pc == RenOld && e == Go(true) && s.disk.exe != Absent && s.disk.previous == Absent && s.disk.staged == Torn
  }

  /** Bytes the machine started with, or that passed the checks of an offer. */
  ghost predicate Trusted(t: Trust, first: string, events: seq<Event>, bytes: string) {
    bytes == first || exists e :: e in events && e.Update? && e.offer.data == bytes && Verified(t, e.offer)
  }

  ghost predicate AllTrusted(t: Trust, first: string, events: seq<Event>, s: State) {
    && (s.pc.Write? ==> Trusted(t, first, events, s.pc.data))
    && (s.disk.exe.Whole? ==> Trusted(t, first, events, s.disk.exe.bytes))
    && (s.disk.staged.Whole? ==> Trusted(t, first, events, s.disk.staged.bytes))
    && (s.disk.previous.Whole? ==> Trusted(t, first, events, s.disk.previous.bytes))
  }

  ghost predicate Sound(s: State) {
    && s.disk.exe != Torn
    && Recoverable(s.disk)
    && (s.pc.Write? ==> s.disk.exe.Whole?)
    && (s.pc in {Remove, MoveOld, MoveNew} ==> s.disk.staged.Whole?)
    && (s.pc in {DelOld, RenOld} ==> s.disk.staged != Absent)
    && (s.pc == RenNew && s.disk.staged == Torn ==> s.disk.exe.Whole?)
  }

  lemma StepKeepsSound(t: Trust, s: State, e: Event)
    requires Sound(s)
    ensures Sound(Step(t, s, e)) <==> !MovesExeForTornFile(s, e)
    ensures Recoverable(Step(t, s, e).disk) <==> !MovesExeForTornFile(s, e)
  {
  }

  lemma {:induction false} RunKeepsSound(t: Trust, first: string, events: seq<Event>)
    requires forall i | 0 <= i < |events| :: !MovesExeForTornFile(After(t, first, events[..i]), events[i])
    ensures Sound(After(t, first, events))
  {
    if events != [] {
      hide Step, Sound, MovesExeForTornFile, Recoverable;
      var n := |events| - 1;
      assert forall i | 0 <= i < n :: events[..n][..i] == events[..i];
      RunKeepsSound(t, first, events[..n]);
      StepKeepsSound(t, After(t, first, events[..n]), events[n]);
    }
  }

  /** A run keeps a complete binary in .exe or .new at every moment exactly when the wrapper never moves
      the executable away for a torn .new. */
  lemma AlwaysRecoverableExactly(t: Trust, first: string, events: seq<Event>)
    ensures (forall i | 0 <= i <= |events| :: Recoverable(After(t, first, events[..i]).disk)) <==>
              (forall i | 0 <= i < |events| :: !MovesExeForTornFile(After(t, first, events[..i]), events[i]))
  {
    if forall i | 0 <= i < |events| :: !MovesExeForTornFile(After(t, first, events[..i]), events[i]) {
      forall i | 0 <= i <= |events| ensures Recoverable(After(t, first, events[..i]).disk) {
        assert forall j | 0 <= j < i :: events[..i][..j] == events[..j];
        RunKeepsSound(t, first, events[..i]);
      }
    } else {
      var i :| 0 <= i < |events| && MovesExeForTornFile(After(t, first, events[..i]), events[i]);
      assert events[..i + 1][..i] == events[..i];
      assert !Recoverable(After(t, first, events[..i + 1]).disk);
    }
  }

  /** No Tear event, no torn file: then the executable or its replacement is complete at every moment. */
  lemma {:induction false} UntornRunsAreRecoverable(t: Trust, first: string, events: seq<Event>)
    requires Tear !in events
    ensures Sound(After(t, first, events)) && After(t, first, events).disk.staged != Torn
  {
    if events != [] {
      var n := |events| - 1;
      UntornRunsAreRecoverable(t, first, events[..n]);
      StepKeepsSound(t, After(t, first, events[..n]), events[n]);
    }
  }

  /** A torn .new, from a crash or a full disk during the write, costs the installation: the wrapper
      renames it over, the start fails, and the old binary is deleted. */
  lemma TornWriteLosesTheAgent(t: Trust, first: string, offer: Offer) returns (events: seq<Event>)
    requires Accepted(t, first, offer)
    ensures After(t, first, events).disk == Disk(Torn, Absent, Absent)
  {
    var start := Disk(Whole(first), Absent, Absent);
    var torn := Disk(Whole(first), Torn, Absent);
    events := [];
    events := AppendEvent(t, first, events, Update(offer), State(Running, start), State(Write(offer.data), start));
    events := AppendEvent(t, first, events, Tear, State(Write(offer.data), start), State(Running, torn));
    events := AppendEvent(t, first, events, Crash, State(Running, torn), State(Boot, torn));
    events := WrapperSwapsTorn(t, first, events);
  }

  lemma WrapperSwapsTorn(t: Trust, first: string, events: seq<Event>) returns (events': seq<Event>)
    requires After(t, first, events) == State(Boot, Disk(Whole(first), Torn, Absent))
    ensures After(t, first, events').disk == Disk(Torn, Absent, Absent)
  {
    hide After;
    var go := Go(true);
    var d0, d1 := Disk(Whole(first), Torn, Absent), Disk(Absent, Torn, Whole(first));
    var d2, d3 := Disk(Torn, Absent, Whole(first)), Disk(Torn, Absent, Absent);
    events' := AppendEvent(t, first, events, go, State(Boot, d0), State(DelOld, d0));
    events' := AppendEvent(t, first, events', go, State(DelOld, d0), State(RenOld, d0));
    events' := AppendEvent(t, first, events', go, State(RenOld, d0), State(RenNew, d1));
    events' := AppendEvent(t, first, events', go, State(RenNew, d1), State(Launch, d2));
    events' := AppendEvent(t, first, events', go, State(Launch, d2), State(AfterExit, d2));
    events' := AppendEvent(t, first, events', go, State(AfterExit, d2), State(Boot, d3));
  }

  lemma AppendEvent(t: Trust, first: string, events: seq<Event>, e: Event, s: State, s': State)
    returns (events': seq<Event>)
    requires After(t, first, events) == s && Step(t, s, e) == s'
    ensures After(t, first, events') == s'
  {
    events' := events + [e];
    assert events'[..|events|] == events;
  }

  // ---- One pass of the wrapper ----

  function WrapperPass(d: Disk, delOk: bool, renOldOk: bool, renNewOk: bool): Disk {
    if d.staged == Absent then d
    else RenStagedToExe(RenExeToOld(RemoveOld(d, delOk), renOldOk), renNewOk)
  }

  /** A pass with no crash leaves a complete executable exactly when: there is nothing staged and the
      executable is complete; or the staged file is complete and could be renamed, the executable
      being out of the way; or the executable was complete and never moved. */
  lemma WrapperPassExactly(d: Disk, delOk: bool, renOldOk: bool, renNewOk: bool)
    ensures var moved := renOldOk && (delOk || d.previous == Absent);
            WrapperPass(d, delOk, renOldOk, renNewOk).exe.Whole? <==>
              if d.staged == Absent then d.exe.Whole?
              else if d.exe == Absent || moved then renNewOk && d.staged.Whole?
              else d.exe.Whole?
  {
  }

  /** The pass of the wrapper is the run of its operations. */
  lemma PassIsARun(t: Trust, d: Disk, delOk: bool, renOldOk: bool, renNewOk: bool)
    requires d.staged != Absent
    ensures Step(t, Step(t, Step(t, Step(t, State(Boot, d), Go(true)), Go(delOk)), Go(renOldOk)), Go(renNewOk))
         == State(Launch, WrapperPass(d, delOk, renOldOk, renNewOk))
  {
  }

  /** From any moment of a run without torn writes, a crash and one pass whose operations succeed leave
      a complete executable. */
  lemma OnePassRepairs(t: Trust, first: string, events: seq<Event>)
    requires Tear !in events
    ensures WrapperPass(After(t, first, events).disk, true, true, true).exe.Whole?
  {
    UntornRunsAreRecoverable(t, first, events);
    WrapperPassExactly(After(t, first, events).disk, true, true, true);
  }

  // ---- The two operations as the code performs them ----

  class InstallDir {
    var disk: Disk

    constructor (bytes: string)
      ensures disk == Disk(Whole(bytes), Absent, Absent)
    {
      disk := Disk(Whole(bytes), Absent, Absent);
    }

    /** apply_update on Windows, uninterrupted; each flag says whether that operation succeeds. */
    method ApplyUpdate(data: string, writeOk: bool, removeOk: bool, moveOldOk: bool, moveNewOk: bool)
      returns (ok: bool)
      modifies this
      ensures disk == Applied(old(disk), data, writeOk, removeOk, moveOldOk, moveNewOk)
      ensures ok ==> (disk.exe == Whole(data) && disk.staged == Absent) ||
                     (disk.exe == old(disk).exe && disk.staged == Whole(data))
    {
      if !writeOk {
        return false;
      }
      disk := disk.(staged := Whole(data));
      if removeOk {
        disk := disk.(previous := Absent);
      }
      if !moveOldOk || disk.exe == Absent {
        return true;
      }
      disk := disk.(previous := disk.exe, exe := Absent);
      if !moveNewOk {
        return false;
      }
      disk := disk.(exe := disk.staged, staged := Absent);
      return true;
    }

    /** The swap block of the wrapper, uninterrupted. */
    method SwapStaged(delOk: bool, renOldOk: bool, renNewOk: bool)
      modifies this
      ensures disk == WrapperPass(old(disk), delOk, renOldOk, renNewOk)
    {
      if disk.staged != Absent {
        if delOk {
          disk := disk.(previous := Absent);
        }
        if renOldOk && disk.previous == Absent && disk.exe != Absent {
          disk := disk.(previous := disk.exe, exe := Absent);
        }
        if renNewOk && disk.exe == Absent {
          disk := disk.(exe := disk.staged, staged := Absent);
        }
      }
    }
  }

  function Applied(d: Disk, data: string, writeOk: bool, removeOk: bool, moveOldOk: bool, moveNewOk: bool): Disk {
    if !writeOk then d else
    var d1 := RemoveOld(d.(staged := Whole(data)), removeOk);
    var d2 := RenameExeToOld(d1, moveOldOk);
    if d2 == d1 then d1 else RenameStagedToExe(d2, moveNewOk)
  }

  /** An update without a crash is the run of its operations. */
  lemma ApplyIsARun(t: Trust, d: Disk, data: string, removeOk: bool, moveOldOk: bool, moveNewOk: bool)
    ensures var s := Step(t, Step(t, Step(t, State(Write(data), d), Go(true)), Go(removeOk)), Go(moveOldOk));
            (if s.pc == MoveNew then Step(t, s, Go(moveNewOk)) else s).disk
            == Applied(d, data, true, removeOk, moveOldOk, moveNewOk)
    ensures Step(t, State(Write(data), d), Go(false)).disk == Applied(d, data, false, removeOk, moveOldOk, moveNewOk)
  {
  }

  // ---- Linux: one atomic rename over the executable ----

  datatype LinuxPc = Serving | WriteTemp(data: string) | Chmod | Replace

  datatype LinuxState = LinuxState(pc: LinuxPc, exe: Content, temp: Content)

  function LinuxStep(t: Trust, s: LinuxState, e: Event): LinuxState {
    match (s.pc, e)
    case (_, Crash) => s.(pc := Serving)
    case (Serving, Update(offer)) =>
      if s.exe.Whole? && Accepted(t, s.exe.bytes, offer) then s.(pc := WriteTemp(offer.data)) else s
    case (WriteTemp(data), Go(ok)) => if ok then LinuxState(Chmod, s.exe, Whole(data)) else s.(pc := Serving)
    case (WriteTemp(data), Tear) => LinuxState(Serving, s.exe, Torn)
    case (Chmod, Go(ok)) => s.(pc := if ok then Replace else Serving)
    case (Replace, Go(ok)) => if ok then LinuxState(Serving, s.temp, Absent) else s.(pc := Serving)
    case _ => s
  }

  ghost function LinuxAfter(t: Trust, first: string, events: seq<Event>): LinuxState {
    if events == [] then LinuxState(Serving, Whole(first), Absent)
    else LinuxStep(t, LinuxAfter(t, first, events[..|events| - 1]), events[|events| - 1])
  }

  ghost predicate LinuxSound(t: Trust, first: string, events: seq<Event>, s: LinuxState) {
    && s.exe.Whole? && Trusted(t, first, events, s.exe.bytes)
    && (s.pc.WriteTemp? ==> Trusted(t, first, events, s.pc.data))
    && (s.temp.Whole? ==> Trusted(t, first, events, s.temp.bytes))
    && (s.pc == Chmod || s.pc == Replace ==> s.temp.Whole?)
  }

  lemma LinuxStepIsSound(t: Trust, first: string, before: seq<Event>, e: Event, s: LinuxState)
    requires LinuxSound(t, first, before, s)
    ensures LinuxSound(t, first, before + [e], LinuxStep(t, s, e))
  {
    var events := before + [e];
    forall bytes | Trusted(t, first, before, bytes) ensures Trusted(t, first, events, bytes) {
      TrustGrows(t, first, before, e, bytes);
    }
    hide Trusted, Verified, IsHex;
    if e.Update? && Verified(t, e.offer) {
      OfferIsTrusted(t, first, events, e);
    }
  }

  /** On Linux the executable is complete at every moment, torn writes and crashes included, and it is
      the first binary or one that was verified. */
  lemma {:induction false} LinuxExeIsAlwaysWhole(t: Trust, first: string, events: seq<Event>)
    ensures LinuxSound(t, first, events, LinuxAfter(t, first, events))
  {
    if events != [] {
      var n := |events| - 1;
      LinuxExeIsAlwaysWhole(t, first, events[..n]);
      LinuxStepIsSound(t, first, events[..n], events[n], LinuxAfter(t, first, events[..n]));
      assert events == events[..n] + [events[n]];
    }
  }

  // ---- Only verified bytes ----

  lemma TrustGrows(t: Trust, first: string, events: seq<Event>, e: Event, bytes: string)
    requires Trusted(t, first, events, bytes)
    ensures Trusted(t, first, events + [e], bytes)
  {
    if bytes != first {
      var f :| f in events && f.Update? && f.offer.data == bytes && Verified(t, f.offer);
      assert f in events + [e];
    }
  }

  lemma StepInstallsOnlyOffers(t: Trust, s: State, e: Event)
    ensures var s' := Step(t, s, e);
            && (!s'.pc.Write? || s'.pc == s.pc
                || (e.Update? && s'.pc.data == e.offer.data && Verified(t, e.offer)))
            && s'.disk.exe in {s.disk.exe, s.disk.staged, Absent}
            && (s'.disk.staged in {s.disk.staged, Absent, Torn} || (s.pc.Write? && s'.disk.staged == Whole(s.pc.data)))
            && s'.disk.previous in {s.disk.previous, s.disk.exe, Absent}
  {
  }

  /** Every complete file is the binary the machine started with or was verified with an offer. */
  lemma {:induction false} OnlyVerifiedBytes(t: Trust, first: string, events: seq<Event>)
    ensures AllTrusted(t, first, events, After(t, first, events))
  {
    if events != [] {
      var n := |events| - 1;
      var before, e := events[..n], events[n];
      OnlyVerifiedBytes(t, first, before);
      assert events == before + [e];
      forall bytes | Trusted(t, first, before, bytes) ensures Trusted(t, first, events, bytes) {
        TrustGrows(t, first, before, e, bytes);
      }
      hide Step, Trusted;
      StepInstallsOnlyOffers(t, After(t, first, before), e);
      if e.Update? && Verified(t, e.offer) {
        OfferIsTrusted(t, first, events, e);
      }
    }
  }

  lemma OfferIsTrusted(t: Trust, first: string, events: seq<Event>, e: Event)
    requires e in events && e.Update? && Verified(t, e.offer)
    ensures Trusted(t, first, events, e.offer.data)
  {
  }

  // ---- The same in terms of hashes and signatures ----

  /** The bytes were offered, with their own hash, and, if a key is configured, with a signature by it. */
  ghost predicate Vouched(t: Trust, events: seq<Event>, bytes: string) {
    exists e :: e in events && e.Update? && e.offer.data == bytes
                && t.sha(bytes) == Text.Strip(e.offer.hash)
                && (Text.Strip(t.publicKey) != "" ==>
                      && e.offer.signature.Some? && Text.Strip(e.offer.signature.value) != ""
                      && t.verifies(Text.Strip(t.publicKey), Text.Strip(e.offer.signature.value), bytes))
  }

  lemma TrustedIsVouched(t: Trust, first: string, events: seq<Event>, bytes: string)
    requires Trusted(t, first, events, bytes)
    ensures bytes == first || Vouched(t, events, bytes)
  {
    if bytes != first {
      var e :| e in events && e.Update? && e.offer.data == bytes && Verified(t, e.offer);
    }
  }

  /** On Windows, whatever happens, each complete file holds the first binary, or bytes that were offered with
      their hash and, if a key is configured, with a signature that verifies. */
  lemma WindowsFilesAreVouched(t: Trust, first: string, events: seq<Event>, file: Content)
    requires var d := After(t, first, events).disk; file == d.exe || file == d.staged || file == d.previous
    requires file.Whole?
    ensures file.bytes == first || Vouched(t, events, file.bytes)
  {
    hide Trusted, Vouched, After;
    OnlyVerifiedBytes(t, first, events);
    TrustedIsVouched(t, first, events, file.bytes);
  }

  /** The same on Linux. */
  lemma LinuxFilesAreVouched(t: Trust, first: string, events: seq<Event>, file: Content)
    requires var s := LinuxAfter(t, first, events); file == s.exe || file == s.temp
    requires file.Whole?
    ensures file.bytes == first || Vouched(t, events, file.bytes)
  {
    hide Trusted, Vouched, LinuxAfter;
    LinuxExeIsAlwaysWhole(t, first, events);
    TrustedIsVouched(t, first, events, file.bytes);
  }

  /** What a running agent with the given bytes starts to write: the data of an offer whose hash is in hex and
      not that of its own bytes, but that of the data, and which is signed if a key is configured. */
  ghost predicate Installs(t: Trust, current: string, offer: Offer) {
    var hash := Text.Strip(offer.hash);
    && hash != "" && |hash| % 2 == 0
    && (forall i | 0 <= i < |hash| ::
          '0' <= hash[i] <= '9' || 'a' <= hash[i] <= 'f' || 'A' <= hash[i] <= 'F')
    && t.sha(current) != hash && t.sha(offer.data) == hash
    && (Text.Strip(t.publicKey) != "" ==>
          && offer.signature.Some? && Text.Strip(offer.signature.value) != ""
          && t.verifies(Text.Strip(t.publicKey), Text.Strip(offer.signature.value), offer.data))
  }

  lemma AcceptedExactly(t: Trust, current: string, offer: Offer)
    ensures Accepted(t, current, offer) <==> Installs(t, current, offer)
  {
    var hash := Text.Strip(offer.hash);
    hide Text.Strip;
    assert forall i | 0 <= i < |hash| :: hash[i] in hash;
  }

  lemma OffersInstalledExactly(t: Trust, current: string, d: Disk, temp: Content, offer: Offer)
    requires d.exe == Whole(current)
    ensures Step(t, State(Running, d), Update(offer)) ==
              State(if Installs(t, current, offer) then Write(offer.data) else Running, d)
    ensures LinuxStep(t, LinuxState(Serving, Whole(current), temp), Update(offer)) ==
              LinuxState(if Installs(t, current, offer) then WriteTemp(offer.data) else Serving, Whole(current), temp)
  {
    hide Accepted, Installs;
    AcceptedExactly(t, current, offer);
  }

  // ---- What the operations leave on disk ----

  /** An update on Windows, once the agent has begun to write: a failed or torn write goes back to the main
      loop. Else the bytes are staged and the old backup is removed if it can be; if the executable can be
      moved to the backup, the staged file takes its place, and if that fails the agent goes on without an
      executable; if it cannot be moved, the staged file stays beside it. The agent exits in every other
      case. */
  lemma WindowsUpdateExactly(t: Trust, d: Disk, data: string, removeOk: bool, moveOldOk: bool, moveNewOk: bool)
    ensures Step(t, State(Write(data), d), Go(false)) == State(Running, d)
    ensures Step(t, State(Write(data), d), Tear) == State(Running, Disk(d.exe, Torn, d.previous))
    ensures var moving := Step(t, Step(t, State(Write(data), d), Go(true)), Go(removeOk));
            var backup := if removeOk then Absent else d.previous;
            && moving == State(MoveOld, Disk(d.exe, Whole(data), backup))
            && (d.exe == Absent || !moveOldOk ==>
                  Step(t, moving, Go(moveOldOk)) == State(AfterExit, Disk(d.exe, Whole(data), backup)))
            && (d.exe != Absent && moveOldOk ==>
                  Step(t, Step(t, moving, Go(moveOldOk)), Go(moveNewOk)) ==
                    if moveNewOk then State(AfterExit, Disk(Whole(data), Absent, d.exe))
                    else State(Running, Disk(Absent, Whole(data), d.exe)))
  {
  }

  /** A turn of the wrapper: without a staged file it starts the executable. With one it deletes the
      backup, moves the executable there unless the backup is still in the way, and puts the staged file in
      its place unless the executable is. What it starts runs if it is complete, and when it ends the
      backup is deleted. */
  lemma WrapperTurnExactly(t: Trust, d: Disk, delOk: bool, renOldOk: bool, renNewOk: bool)
    ensures d.staged == Absent ==> Step(t, State(Boot, d), Go(true)) == State(Launch, d)
    ensures d.staged != Absent ==>
              var backup := if delOk then Absent else d.previous;
              var moved := renOldOk && backup == Absent && d.exe != Absent;
              var freed := if moved then Disk(Absent, d.staged, d.exe) else Disk(d.exe, d.staged, backup);
              Step(t, Step(t, Step(t, Step(t, State(Boot, d), Go(true)), Go(delOk)), Go(renOldOk)), Go(renNewOk)) ==
                State(Launch, if renNewOk && freed.exe == Absent then Disk(d.staged, Absent, freed.previous) else freed)
    ensures Step(t, State(Launch, d), Go(true)) == State(if d.exe.Whole? then Running else AfterExit, d)
    ensures Step(t, State(Running, d), Exit) == State(AfterExit, d)
    ensures Step(t, State(AfterExit, d), Go(delOk)) ==
              State(Boot, Disk(d.exe, d.staged, if delOk then Absent else d.previous))
  {
  }

  /** A crash stops the agent and the wrapper and touches no file. Updates and exits concern only a running
      agent, which does nothing else, and only a write can break off. */
  lemma OtherEventsExactly(t: Trust, s: State, offer: Offer, ok: bool)
    ensures Step(t, s, Crash) == State(Boot, s.disk)
    ensures s.pc != Running ==> Step(t, s, Update(offer)) == s && Step(t, s, Exit) == s
    ensures s.pc == Running ==> Step(t, s, Go(ok)) == s
    ensures !s.pc.Write? ==> Step(t, s, Tear) == s
  {
  }

  /** An update on Linux: only a completed write, a change of mode and a rename that all succeed replace the
      executable, at once; the agent goes on serving after every failure, leaving the temporary file. */
  lemma LinuxUpdateExactly(t: Trust, exe: Content, temp: Content, data: string, chmodOk: bool, replaceOk: bool)
    ensures var start := LinuxState(WriteTemp(data), exe, temp);
            var written := LinuxStep(t, start, Go(true));
            && LinuxStep(t, start, Go(false)) == LinuxState(Serving, exe, temp)
            && LinuxStep(t, start, Tear) == LinuxState(Serving, exe, Torn)
            && written == LinuxState(Chmod, exe, Whole(data))
            && LinuxStep(t, written, Go(chmodOk)) == LinuxState(if chmodOk then Replace else Serving, exe, Whole(data))
            && LinuxStep(t, LinuxStep(t, written, Go(true)), Go(replaceOk)) ==
                 if replaceOk then LinuxState(Serving, Whole(data), Absent) else LinuxState(Serving, exe, Whole(data))
  {
  }

  lemma LinuxOtherEventsExactly(t: Trust, s: LinuxState, offer: Offer, ok: bool)
    ensures LinuxStep(t, s, Crash) == LinuxState(Serving, s.exe, s.temp)
    ensures LinuxStep(t, s, Exit) == s
    ensures s.pc != Serving ==> LinuxStep(t, s, Update(offer)) == s
    ensures s.pc == Serving ==> LinuxStep(t, s, Go(ok)) == s
    ensures !s.pc.WriteTemp? ==> LinuxStep(t, s, Tear) == s
  {
  }
}
