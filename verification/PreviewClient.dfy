/** The preview commands as they run: provider calls and journal saves in order, each a step of the
    protocol in Preview. */
module PreviewClient {
  import opened Wrappers
  import opened Preview

  /** The truth about the latest deployment of a preview. */
  function LatestOf(previews: Previews, id: Id): Latest {
    if id !in previews || previews[id].deployments == [] then NoDeployment
    else LatestIs(previews[id].deployments[|previews[id].deployments| - 1])
  }

  /** The remote side. Which replies are lost, and which calls take effect, is decided by the caller. */
  class Provider {
    var previews: Previews
    var unused: Id

    constructor (previews: Previews, unused: Id)
      ensures this.previews == previews && this.unused == unused
    {
      this.previews := previews;
      this.unused := unused;
    }

    method Inspect(name: string, fails: bool) returns (read: Read)
      ensures TrueRead(previews, name, read) && (fails <==> read.ReadFailed?)
    {
      if fails {
        return ReadFailed;
      }
      if id :| id in previews && previews[id].name == name {
        read := Found(id);
      } else {
        read := Absent;
      }
    }

    method LatestDeployment(id: Id, fails: bool) returns (latest: Latest)
      ensures TrueLatest(previews, id, latest)
      ensures latest == if fails then LatestFailed else LatestOf(previews, id)
    {
      if fails {
        return LatestFailed;
      }
      if id !in previews || previews[id].deployments == [] {
        latest := NoDeployment;
      } else {
        latest := LatestIs(previews[id].deployments[|previews[id].deployments| - 1]);
      }
    }

    /** POST: the new preview's identity when its reply is heard. */
    method CreateEmpty(name: string, createdOn: int, takesEffect: bool, heard: bool) returns (created: Option<Identity>)
      modifies this
      ensures takesEffect ==>
              previews == old(previews)[old(unused) := Remote(name, createdOn, [])] && unused == old(unused) + 1
      ensures !takesEffect ==> previews == old(previews) && unused == old(unused)
      ensures created == if takesEffect && heard then Some(Identity(old(unused), name, createdOn)) else None
    {
      created := None;
      if takesEffect {
        var id := unused;
        previews := previews[id := Remote(name, createdOn, [])];
        unused := unused + 1;
        if heard {
          created := Some(Identity(id, name, createdOn));
        }
      }
    }

    /** Deploys onto the preview bearing the name (`onto`) or a new one; the receipt when it is heard. */
    method Deploy(name: string, onto: Option<Id>, createdOn: int, d: Deployment, takesEffect: bool, heard: bool)
      returns (receipt: Option<Identity>)
      requires onto.Some? ==> onto.value in previews && previews[onto.value].name == name
      modifies this
      ensures !takesEffect ==> previews == old(previews) && unused == old(unused) && receipt.None?
      ensures takesEffect ==>
        var id := if onto.Some? then onto.value else old(unused);
        var before := if onto.Some? then old(previews)[id] else Remote(name, createdOn, []);
        && previews == old(previews)[id := before.(deployments := before.deployments + [d])]
        && unused == (if onto.Some? then old(unused) else old(unused) + 1)
        && receipt == (if heard then Some(Identity(id, name, before.createdOn)) else None)
    {
      receipt := None;
      if takesEffect {
        var id := if onto.Some? then onto.value else unused;
        var before := if onto.Some? then previews[id] else Remote(name, createdOn, []);
        previews := previews[id := before.(deployments := before.deployments + [d])];
        if onto.None? {
          unused := unused + 1;
        }
        if heard {
          receipt := Some(Identity(id, name, before.createdOn));
        }
      }
    }

    method Remove(id: Id, takesEffect: bool)
      modifies this
      ensures previews == (if takesEffect then old(previews) - {id} else old(previews)) && unused == old(unused)
    {
      if takesEffect {
        previews := previews - {id};
      }
    }
  }

  /** What other actors make of the provider's state before a call. */
  datatype Others = Others(previews: Previews, unused: Id)

  /** They change it as far as they can. */
  function Interfered(c: Config, previews: Previews, unused: Id, others: Others): Others {
    if MayBecome(c, previews, unused, others.previews, others.unused) then others
    else Others.Others(previews, unused)
  }

  datatype CreateScript = CreateScript(
    beforeInspect: Others, inspectFails: bool,
    beforePost: Others, postCreatedOn: int, postTakesEffect: bool, postHeard: bool,
    beforeDeploy: Others, onto: Option<Id>, deployCreatedOn: int, deploymentId: nat,
    deployTakesEffect: bool, deployHeard: bool,
    smokePasses: bool)

  /** The deployment goes to an existing preview, which has to bear the name. */
  predicate DeploysOnto(previews: Previews, name: string, script: CreateScript) {
    script.onto.Some? && script.onto.value in previews && previews[script.onto.value].name == name
  }

  function DeployTarget(previews: Previews, unused: Id, name: string, script: CreateScript): Identity {
    if DeploysOnto(previews, name, script) then Identity(script.onto.value, name, previews[script.onto.value].createdOn)
    else Identity(unused, name, script.deployCreatedOn)
  }

  datatype CleanupScript = CleanupScript(
    beforeInspect: Others, inspectFails: bool, beforeLatest: Others, latestFails: bool, legacy: Option<Deployment>,
    beforeRemove: Others, removeTakesEffect: bool, beforeConfirm: Others, confirmFails: bool)

  /** The proof a cleanup asks for: `named` is the provider's state at the read by name, `then_` at the read of
      the deployment. */
  predicate MayRemove(c: Config, j: Journal, named: Previews, then_: Previews, id: Id, script: CleanupScript)
    requires id in named
  {
    if c.recover then !script.latestFails && Proven(c, j, then_, IdentityOf(named, id))
    else script.legacy.Some? && ProvenLegacy(c, j, IdentityOf(named, id), script.legacy.value)
  }

  /** What a cleanup removes: the preview found under the name, exactly on that proof. */
  ghost predicate CleanupRemoves(c: Config, j: Journal, named: Previews, then_: Previews, script: CleanupScript,
                                 before: seq<Id>, after: seq<Id>)
  {
    exists read: Read ::
      && TrueRead(named, c.name, read) && (read.ReadFailed? <==> script.inspectFails)
      && after == before + if read.Found? && MayRemove(c, j, named, then_, read.id, script) then [read.id] else []
  }

  lemma CleanupRemovesOn(c: Config, j: Journal, named: Previews, then_: Previews, script: CleanupScript,
                         before: seq<Id>, after: seq<Id>, read: Read)
    requires TrueRead(named, c.name, read) && (read.ReadFailed? <==> script.inspectFails)
    requires after == before + if read.Found? && MayRemove(c, j, named, then_, read.id, script) then [read.id] else []
    ensures CleanupRemoves(c, j, named, then_, script, before, after)
  {
  }

  predicate IsCommand(e: Event) {
    e.StartCreate? || e.StartCleanup? || e.Crash?
  }

  function Commands(events: seq<Event>): seq<Event> {
    if events == [] then []
    else
      var last := events[|events| - 1];
      Commands(events[..|events| - 1]) + if IsCommand(last) then [last] else []
  }

  class Client {
    const c: Config
    const provider: Provider
    /** The journal file. */
    var file: Option<Journal>
    /** The same run in the protocol, and the events that led there. */
    ghost var s: State
    ghost var trace: seq<Event>
    /** The commands among them, and the crashes. */
    ghost var commands: seq<Event>
    ghost const start: State

    /** The protocol's state describes the real one. */
    ghost predicate Matches()
      reads this, provider
    {
      && s.previews == provider.previews && s.unused == provider.unused && OnDisk(s) == file
      && Traced()
    }

    ghost predicate Traced()
      reads this
    {
      s == Run(c, start, trace) && commands == Commands(trace)
    }

    ghost predicate Doing(journal: Journal, at: Point)
      reads this, provider
    {
      Matches() && s.process.Busy? && s.process.journal == journal && s.process.at == at
    }

    ghost predicate Ready()
      reads this, provider
    {
      Matches() && s.process.Idle?
    }

    constructor (c: Config, provider: Provider)
      ensures this.c == c && this.provider == provider && file == None && fresh(this)
      ensures Ready() && start == Start(provider.previews, provider.unused)
    {
      this.c := c;
      this.provider := provider;
      file := None;
      s := Start(provider.previews, provider.unused);
      start := Start(provider.previews, provider.unused);
      trace := [];
      commands := [];
    }

    /** The read that reported the name absent in this call is on record. */
    ghost predicate Evident()
      reads this, provider
    {
      s.process.Busy? && s.process.evidence.Some? && NameFree(s.process.evidence.value, c.name)
    }

    /** The last save of the journal was made on such evidence. */
    ghost predicate SavedOnEvidence()
      reads this
    {
      s.saves != [] && var last := s.saves[|s.saves| - 1].evidence; last.Some? && NameFree(last.value, c.name)
    }

    /** A step of the protocol within a command. */
    ghost method Advance(e: Event)
      requires Traced() && !IsCommand(e)
      modifies this`s, this`trace
      ensures s == Step(c, old(s), e) && Traced()
    {
      s := Step(c, s, e);
      assert (trace + [e])[..|trace|] == trace;
      trace := trace + [e];
    }

    ghost method Command(e: Event)
      requires Traced() && IsCommand(e)
      modifies this`s, this`trace, this`commands
      ensures s == Step(c, old(s), e) && Traced() && commands == old(commands) + [e]
    {
      s := Step(c, s, e);
      assert (trace + [e])[..|trace|] == trace;
      trace := trace + [e];
      commands := commands + [e];
    }

    /** Other actors change the provider's state, as far as they can. */
    method Interfere(others: Others)
      requires Matches()
      modifies this`s, this`trace, provider
      ensures Matches() && s.process == old(s).process && s.saves == old(s).saves && s.removals == old(s).removals
      ensures Others.Others(provider.previews, provider.unused)
              == Interfered(c, old(provider.previews), old(provider.unused), others)
    {
      Advance(Event.Others(others.previews, others.unused));
      if MayBecome(c, provider.previews, provider.unused, others.previews, others.unused) {
        provider.previews := others.previews;
        provider.unused := others.unused;
      }
    }

    /** Write to a temporary file, then rename. */
    method Save(journal: Journal, ghost at: Point, ghost next: Point)
      requires Doing(journal, at)
      requires (at, next) in {(SavingCreated, Deploying), (SavingDeployed, Smoking), (SavingProof, Removing)} ||
               (at == SavingIntent && next == if c.createEmpty then Creating else Deploying)
      modifies this`s, this`trace, this`file
      ensures Doing(journal, next) && file == Some(journal)
      ensures s.saves == old(s).saves + [Saved(journal, old(s).process.evidence)] && s.removals == old(s).removals
    {
      Advance(Event.Save);
      file := Some(journal);
    }

    /** The save after which the call ends. */
    method SaveLast(journal: Journal)
      requires Doing(journal, SavingLast)
      modifies this`s, this`trace, this`file
      ensures Ready() && file == Some(journal)
      ensures s.saves == old(s).saves + [Saved(journal, old(s).process.evidence)] && s.removals == old(s).removals
      ensures old(Evident()) ==> SavedOnEvidence()
    {
      Advance(Event.Save);
      file := Some(journal);
    }

    // ---------- createPreview ----------

    method BeginCreate() returns (journal: Journal)
      requires Ready() && file.None?
      modifies this`s, this`trace, this`commands
      ensures Doing(journal, Inspecting) && journal == Journal(Intent, None, None)
      ensures commands == old(commands) + [StartCreate]
    {
      journal := Journal(Intent, None, None);
      Command(StartCreate);
    }

    /** The name must be free. */
    method InspectName(journal: Journal, fails: bool) returns (free: bool)
      requires Doing(journal, Inspecting)
      modifies this`s, this`trace
      ensures if free then Doing(journal, SavingIntent) else Ready()
    {
      var read := provider.Inspect(c.name, fails);
      Advance(Answer(read));
      free := read.Absent?;
    }

    method PostPreview(journal: Journal, createdOn: int, takesEffect: bool, heard: bool) returns (next: Journal)
      requires Doing(journal, Creating)
      modifies this`s, this`trace, provider
      ensures if takesEffect && heard then Doing(next, SavingCreated) && next.preview.Some?
              else Doing(next, SavingLast) && next.status == Status.Unknown
    {
      Advance(Post(createdOn, takesEffect, heard));
      var created := provider.CreateEmpty(c.name, createdOn, takesEffect, heard);
      if created.None? {
        next := journal.(status := Status.Unknown);
      } else {
        next := journal.(status := Created, preview := created);
      }
    }

    method DeployOnce(journal: Journal, script: CreateScript) returns (next: Journal, known: bool)
      requires Doing(journal, Deploying)
      modifies this`s, this`trace, provider
      ensures var target := DeployTarget(old(provider.previews), old(provider.unused), c.name, script);
              && (known <==> script.deployTakesEffect && script.deployHeard
                             && (journal.preview.None? || SameIdentity(target, journal.preview.value)))
              && (if known then
                    Doing(next, SavingDeployed)
                      && next == Journal(Deployed, Some(target), Some(Deployment(script.deploymentId, c.tag)))
                  else Doing(next, SavingLast) && next == journal.(status := Status.Unknown))
    {
      var onto := if DeploysOnto(provider.previews, c.name, script) then script.onto else None;
      Advance(Deploy(onto, script.deployCreatedOn, script.deploymentId, script.deployTakesEffect, script.deployHeard));
      var deployment := Deployment(script.deploymentId, c.tag);
      var receipt := provider.Deploy(c.name, onto, script.deployCreatedOn,
                                     deployment, script.deployTakesEffect, script.deployHeard);
      known := receipt.Some? && (journal.preview.None? || SameIdentity(receipt.value, journal.preview.value));
      next := if known then Journal(Deployed, receipt, Some(deployment)) else journal.(status := Status.Unknown);
    }

    method Smoke(journal: Journal, passes: bool) returns (next: Journal)
      requires Doing(journal, Smoking)
      modifies this`s, this`trace
      ensures Doing(next, SavingLast) && next == if passes then journal else journal.(status := SmokeFailed)
    {
      Advance(SmokeDone(passes));
      next := if passes then journal else journal.(status := SmokeFailed);
    }

    /** True when the preview was deployed and passed its smoke check. Ready again with one command more
        and no crash, the protocol has been followed to where it ends. */
    method CreatePreview(script: CreateScript) returns (ok: bool)
      requires Ready()
      modifies this, provider
      ensures Ready()
      ensures ok ==>
              old(file).None? && file.Some? && file.value.status == Deployed
                && file.value.preview.Some? && file.value.deployment.Some?
      ensures old(file).Some? ==>
              file == old(file) && commands == old(commands) && provider.previews == old(provider.previews)
      ensures old(file).None? ==> commands == old(commands) + [StartCreate]
      ensures !ok && file.Some? && old(file).None? ==>
              file.value.status == Status.Unknown || (file.value.status == SmokeFailed && !script.smokePasses)
    {
      hide Run, Step, Commands;
      if file.Some? {
        return false;
      }
      var journal := BeginCreate();
      Interfere(script.beforeInspect);
      var free := InspectName(journal, script.inspectFails);
      if !free {
        return false;
      }
      Save(journal, SavingIntent, if c.createEmpty then Creating else Deploying);
      if c.createEmpty {
        Interfere(script.beforePost);
        journal := PostPreview(journal, script.postCreatedOn, script.postTakesEffect, script.postHeard);
        if !(script.postTakesEffect && script.postHeard) {
          SaveLast(journal);
          return false;
        }
        Save(journal, SavingCreated, Deploying);
      }
      ok := DeployAndSmoke(journal, script);
    }

    method DeployAndSmoke(created: Journal, script: CreateScript) returns (ok: bool)
      requires Doing(created, Deploying)
      modifies this`s, this`trace, this`file, provider
      ensures Ready() && file.Some?
      ensures ok ==> file.value.status == Deployed && file.value.preview.Some? && file.value.deployment.Some?
      ensures !ok ==> file.value.status == Status.Unknown || (file.value.status == SmokeFailed && !script.smokePasses)
    {
      hide Run, Step, Commands;
      var journal := created;
      Interfere(script.beforeDeploy);
      var known;
      journal, known := DeployOnce(journal, script);
      if !known {
        SaveLast(journal);
        return false;
      }
      Save(journal, SavingDeployed, Smoking);
      journal := Smoke(journal, script.smokePasses);
      SaveLast(journal);
      ok := script.smokePasses;
    }

    // ---------- cleanupPreview ----------

    method BeginCleanup() returns (journal: Journal)
      requires Ready() && file.Some?
      modifies this`s, this`trace, this`commands
      ensures Doing(journal, Reading) && file == Some(journal) && s.removals == old(s).removals
      ensures commands == old(commands) + [StartCleanup]
    {
      Command(StartCleanup);
      journal := file.value;
    }

    /** The preview by name. Absence alone already allows "cleaned". */
    method ReadByName(journal: Journal, fails: bool) returns (read: Read, next: Journal)
      requires Doing(journal, Reading)
      modifies this`s, this`trace
      ensures TrueRead(provider.previews, c.name, read) && (read.ReadFailed? <==> fails)
      ensures s.removals == old(s).removals
      ensures match read
              case Absent => next == journal.(status := Cleaned) && Doing(next, SavingLast) && Evident()
              case ReadFailed => next == journal && Ready()
              case Found(id) => next == journal && var found := IdentityOf(provider.previews, id);
                if c.recover then Doing(journal, ReadingLatest(found))
                else if LegacyCandidate(c, journal, found) then Doing(journal, ReadingLegacy(found)) else Ready()
    {
      read := provider.Inspect(c.name, fails);
      Advance(Answer(read));
      next := if read.Absent? then journal.(status := Cleaned) else journal;
    }

    /** With the latest deployment; otherwise with the deployment the journal has. */
    method ReadLatest(journal: Journal, found: Identity, fails: bool) returns (owned: Ownership)
      requires Doing(journal, ReadingLatest(found))
      modifies this`s, this`trace
      ensures MayGoOn(journal, owned)
      ensures owned == if !fails && Proven(c, journal, provider.previews, found)
                       then Owned(found, LatestDeployed(provider.previews, found.id)) else Refused
      ensures s.removals == old(s).removals
    {
      var latest := provider.LatestDeployment(found.id, fails);
      OwnershipExactly(c, journal, provider.previews, found, latest);
      Advance(AnswerLatest(latest));
      owned := FromLatest(c, journal, found, latest);
    }

    method ReadLegacy(journal: Journal, found: Identity, deployment: Option<Deployment>) returns (owned: Ownership)
      requires Doing(journal, ReadingLegacy(found)) && journal.deployment.Some?
      modifies this`s, this`trace
      ensures MayGoOn(journal, owned)
      ensures owned == Refused || owned == Owned(found, deployment)
      ensures owned.Owned? <==>
              deployment.Some? && deployment.value.id == journal.deployment.value.id && deployment.value.tag == c.tag
      ensures s.removals == old(s).removals
    {
      Advance(AnswerLegacy(deployment));
      owned := if deployment.Some? && deployment.value.id == journal.deployment.value.id
               && deployment.value.tag == c.tag
               then Owned(found, deployment) else Refused;
    }

    /** Refused: the call has ended. Owned: recovered proof is saved before the removal. */
    ghost predicate MayGoOn(journal: Journal, owned: Ownership)
      reads this, provider
    {
      match owned
      case Refused => Ready()
      case Owned(preview, deployment) =>
        if NeedsProof(journal, deployment) then Doing(WithProof(journal, preview, deployment), SavingProof)
        else Doing(journal, Removing)
    }

    predicate NeedsProof(journal: Journal, deployment: Option<Deployment>) {
      journal.preview.None? || (deployment.Some? && journal.deployment.None?)
    }

    function WithProof(journal: Journal, preview: Identity, deployment: Option<Deployment>): Journal {
      Journal(journal.status, Some(preview), if deployment.Some? then deployment else journal.deployment)
    }

    /** The preview to remove is the one in the journal file. */
    method RemovePreview(journal: Journal, takesEffect: bool)
      requires Doing(journal, Removing) && file == Some(journal) && journal.preview.Some?
      modifies this`s, this`trace, provider
      ensures Doing(journal, Confirming) && s.removals == old(s).removals + [journal.preview.value.id]
              && s.saves == old(s).saves
      ensures s.process.evidence == old(s).process.evidence
      ensures provider.previews
              == if takesEffect then old(provider.previews) - {journal.preview.value.id} else old(provider.previews)
    {
      Advance(Event.Remove(takesEffect));
      provider.Remove(journal.preview.value.id, takesEffect);
    }

    /** Only a read that reports the name absent makes the journal "cleaned". */
    method Confirm(journal: Journal, fails: bool) returns (next: Journal)
      requires Doing(journal, Confirming)
      modifies this`s, this`trace
      ensures Doing(next, SavingLast)
              && (next == journal.(status := Cleaned) || next == journal.(status := Status.Unknown))
      ensures next.status == Cleaned ==> Evident()
      ensures s.saves == old(s).saves && s.removals == old(s).removals
    {
      var read := provider.Inspect(c.name, fails);
      Advance(Answer(read));
      next := journal.(status := if read.Absent? then Cleaned else Status.Unknown);
    }

    /** True when the journal was saved as "cleaned" on the evidence of a read in this call. Again the
        protocol has been followed to where it ends. */
    method CleanupPreview(script: CleanupScript) returns (ok: bool)
      requires Ready()
      modifies this, provider
      ensures Ready()
      ensures old(file).None? ==> !ok && commands == old(commands) && provider.previews == old(provider.previews)
      ensures old(file).Some? ==> commands == old(commands) + [StartCleanup]
      ensures ok ==> file.Some? && file.value.status == Cleaned && SavedOnEvidence()
      ensures !ok ==> file == old(file) || (file.Some? && file.value.status == Status.Unknown)
      ensures old(file).Some? ==>
              var named := Interfered(c, old(provider.previews), old(provider.unused), script.beforeInspect);
              var then_ := Interfered(c, named.previews, named.unused, script.beforeLatest);
              CleanupRemoves(c, old(file).value, named.previews, then_.previews, script, old(s).removals, s.removals)
    {
      hide Run, Step, Commands, MayBecome, MayRemove, TrueRead, ProofOf, Proven, ProvenLegacy;
      if file.None? {
        return false;
      }
      ghost var before := s.removals;
      ghost var named := Interfered(c, provider.previews, provider.unused, script.beforeInspect);
      ghost var then_ := Interfered(c, named.previews, named.unused, script.beforeLatest);
      var journal := BeginCleanup();
      Interfere(script.beforeInspect);
      hide Interfered, CleanupRemoves, LegacyCandidate, IdentityOf;
      var read, next := ReadByName(journal, script.inspectFails);
      match read
      case ReadFailed =>
        CleanupRemovesOn(c, journal, named.previews, then_.previews, script, before, s.removals, read);
        return false;
      case Absent =>
        SaveLast(next);
        CleanupRemovesOn(c, journal, named.previews, then_.previews, script, before, s.removals, read);
        return true;
      case Found(id) =>
        ok := CleanFound(journal, id, script);
        CleanupRemovesOn(c, journal, named.previews, then_.previews, script, before, s.removals, read);
    }

    /** With the preview that bears the name. */
    method CleanFound(journal: Journal, id: Id, script: CleanupScript) returns (ok: bool)
      requires Matches() && file == Some(journal) && id in provider.previews
      requires var found := IdentityOf(provider.previews, id);
               if c.recover then Doing(journal, ReadingLatest(found))
               else if LegacyCandidate(c, journal, found) then Doing(journal, ReadingLegacy(found)) else Ready()
      requires provider.previews[id].name == c.name
      modifies this`s, this`trace, this`file, provider
      ensures Ready()
      ensures ok ==> file.Some? && file.value.status == Cleaned && SavedOnEvidence()
      ensures !ok ==> file == old(file) || (file.Some? && file.value.status == Status.Unknown)
      ensures var then_ := Interfered(c, old(provider.previews), old(provider.unused), script.beforeLatest);
              s.removals == old(s).removals
                            + if MayRemove(c, journal, old(provider.previews), then_.previews, id, script) then [id]
                              else []
    {
      hide Run, Step, Commands, MayBecome, MayRemove, Proven, ProvenLegacy, Interfered, ProofOf;
      var owned := CheckOwnership(journal, id, script);
      match owned
      case Refused => return false;
      case Owned(preview, deployment) => ok := RemoveOwned(journal, preview, deployment, script);
    }

    /** The call goes on exactly with the proof. */
    method CheckOwnership(journal: Journal, id: Id, script: CleanupScript) returns (owned: Ownership)
      requires Matches() && file == Some(journal) && id in provider.previews
      requires var found := IdentityOf(provider.previews, id);
               if c.recover then Doing(journal, ReadingLatest(found))
               else if LegacyCandidate(c, journal, found) then Doing(journal, ReadingLegacy(found)) else Ready()
      requires provider.previews[id].name == c.name
      modifies this`s, this`trace, provider
      ensures MayGoOn(journal, owned) && s.removals == old(s).removals
      ensures var then_ := Interfered(c, old(provider.previews), old(provider.unused), script.beforeLatest);
              owned.Owned? <==> MayRemove(c, journal, old(provider.previews), then_.previews, id, script)
      ensures owned.Owned? ==> ProofOf(journal, owned.preview, owned.deployment).preview.value.id == id
    {
      hide Run, Step, Commands, MayBecome;
      var found := IdentityOf(provider.previews, id);
      owned := Refused;
      if c.recover {
        Interfere(script.beforeLatest);
        owned := ReadLatest(journal, found, script.latestFails);
      } else if LegacyCandidate(c, journal, found) {
        Interfere(script.beforeLatest);
        owned := ReadLegacy(journal, found, script.legacy);
      }
    }

    /** The journal at the removal. */
    function ProofOf(journal: Journal, preview: Identity, deployment: Option<Deployment>): (proof: Journal)
      ensures proof.preview.Some?
    {
      if NeedsProof(journal, deployment) then WithProof(journal, preview, deployment) else journal
    }

    method RemoveOwned(found: Journal, preview: Identity, deployment: Option<Deployment>, script: CleanupScript)
      returns (ok: bool)
      requires MayGoOn(found, Owned(preview, deployment)) && file == Some(found)
      modifies this`s, this`trace, this`file, provider
      ensures Ready()
      ensures ok ==> file.Some? && file.value.status == Cleaned && SavedOnEvidence()
      ensures !ok ==> file.Some? && file.value.status == Status.Unknown
      ensures var proof := ProofOf(found, preview, deployment);
              && s.removals == old(s).removals + [proof.preview.value.id]
              && file == Some(proof.(status := if ok then Cleaned else Status.Unknown))
              && |s.saves| == |old(s).saves| + (if NeedsProof(found, deployment) then 2 else 1)
              && (NeedsProof(found, deployment) ==> s.saves[|old(s).saves|].journal == proof)
    {
      hide Run, Step, Commands;
      var journal := found;
      if NeedsProof(journal, deployment) {
        journal := WithProof(journal, preview, deployment);
        Save(journal, SavingProof, Removing);
      }
      Interfere(script.beforeRemove);
      RemovePreview(journal, script.removeTakesEffect);
      Interfere(script.beforeConfirm);
      journal := Confirm(journal, script.confirmFails);
      SaveLast(journal);
      ok := journal.status == Cleaned;
    }
  }

  /** After any sequence of completed commands the promises of the protocol hold of the client's history;
      commands that crash are among the runs in Preview. */
  lemma ClientIsSafe(client: Client, previews: Previews, unused: Id)
    requires client.Matches() && client.start == Start(previews, unused)
    requires !Tagged(client.c, previews) && forall id <- previews :: id < unused
    ensures Inv(client.c, client.s)
    ensures client.c.createEmpty ==> forall id <- client.s.removals :: id in client.s.own && id !in previews
  {
    RunsKeep(client.c, previews, unused, client.trace);
    OwnIsNew(client.c, previews, unused, client.trace);
    hide Run;
    forall id <- client.s.removals ensures client.c.createEmpty ==> id in client.s.own && id !in previews {
      var i :| 0 <= i < |client.s.removals| && client.s.removals[i] == id;
    }
  }
}
