/** The preview journal protocol: a client that saves its journal between calls to an unreliable
    provider it shares with other actors, and may stop anywhere. */
module Preview {
  import opened Wrappers

  type Id = nat

  /** Identity of a preview as the provider reports it. */
  datatype Identity = Identity(id: Id, name: string, createdOn: int)
  datatype Deployment = Deployment(id: nat, tag: string)

  /** A preview at the provider; deployments from the oldest. */
  datatype Remote = Remote(name: string, createdOn: int, deployments: seq<Deployment>)
  type Previews = map<Id, Remote>

  datatype Status = Intent | Created | Deployed | SmokeFailed | Unknown | Cleaned

  datatype Journal = Journal(status: Status, preview: Option<Identity>, deployment: Option<Deployment>)

  /** One journal's fixed name and nonce tag, and which optional calls the provider has. */
  datatype Config = Config(name: string, tag: string, createEmpty: bool, recover: bool)

  // ---------- Provider replies ----------

  datatype Read = Absent | Found(id: Id) | ReadFailed
  datatype Latest = NoDeployment | LatestIs(deployment: Deployment) | LatestFailed

  predicate NameFree(previews: Previews, name: string) {
    forall id <- previews :: previews[id].name != name
  }

  /** A read by name tells the truth about the moment it is served, or fails. */
  predicate TrueRead(previews: Previews, name: string, reply: Read) {
    match reply
    case Absent => NameFree(previews, name)
    case Found(id) => id in previews && previews[id].name == name
    case ReadFailed => true
  }

  predicate TrueLatest(previews: Previews, id: Id, reply: Latest) {
    match reply
    case NoDeployment => id !in previews || previews[id].deployments == []
    case LatestIs(d) =>
      id in previews && previews[id].deployments != [] && previews[id].deployments[|previews[id].deployments| - 1] == d
    case LatestFailed => true
  }

  function IdentityOf(previews: Previews, id: Id): Identity
    requires id in previews
  {
    Identity(id, previews[id].name, previews[id].createdOn)
  }

  // ---------- inspectOwned ----------

  datatype Ownership = Owned(preview: Identity, deployment: Option<Deployment>) | Refused

  predicate SameIdentity(a: Identity, b: Identity) {
    a.id == b.id && a.createdOn == b.createdOn
  }

  /** What the latest-deployment evidence allows, given the preview read by name. */
  function FromLatest(c: Config, j: Journal, found: Identity, latest: Latest): Ownership {
    match latest
    case NoDeployment =>
      if j.preview.None? || j.deployment.Some? || found.name != c.name || !SameIdentity(found, j.preview.value)
      then Refused
      else Owned(found, None)
    case LatestIs(d) =>
      if d.tag != c.tag || found.name != c.name then Refused
      else if j.preview.Some? && !SameIdentity(found, j.preview.value) then Refused
      else if j.deployment.Some? && j.deployment.value.id != d.id then Refused
      else Owned(found, Some(d))
    case LatestFailed => Refused
  }

  /** Providers without recovery: the original persisted proof is required before the deployment is read. */
  predicate LegacyCandidate(c: Config, j: Journal, found: Identity) {
    j.preview.Some? && j.deployment.Some? && found.name == c.name && SameIdentity(found, j.preview.value)
  }

  // ---------- The process ----------

  datatype Point =
    | Inspecting                  // createPreview: is the name free
    | SavingIntent
    | Creating                    // createEmptyPreview
    | SavingCreated
    | Deploying
    | SavingDeployed
    | Smoking
    | SavingLast                  // the save after which the call ends
    | Reading                     // cleanupPreview: the preview by name
    | ReadingLatest(found: Identity)
    | ReadingLegacy(found: Identity)
    | SavingProof
    | Removing
    | Confirming

  /** `evidence` is the provider's state at the read that last reported the name absent in this call. */
  datatype Process = Idle | Busy(journal: Journal, at: Point, evidence: Option<Previews>)

  /** A journal save, with the evidence its process had. */
  datatype Saved = Saved(journal: Journal, evidence: Option<Previews>)

  /** `own` are the ids this journal's creation call produced, `removals` the ids given to remove, and
      `saves` the journal versions written; the disk holds the last one. `unused` bounds all ids so far. */
  datatype State = State(previews: Previews, unused: Id, process: Process,
                         own: set<Id>, removals: seq<Id>, saves: seq<Saved>)

  function Start(previews: Previews, unused: Id): State {
    State(previews, unused, Idle, {}, [], [])
  }

  function OnDisk(s: State): Option<Journal> {
    if s.saves == [] then None else Some(s.saves[|s.saves| - 1].journal)
  }

  // ---------- Events: the choices the environment makes ----------

  datatype Event =
    | Others(previews: Previews, unused: Id)                      // other actors do anything they can
    | Crash
    | StartCreate
    | StartCleanup
    | Answer(read: Read)                                          // reply to a read by name
    | AnswerLatest(latest: Latest)
    | AnswerLegacy(deployment: Option<Deployment>)
    | Post(createdOn: int, takesEffect: bool, heard: bool)
    | Deploy(onto: Option<Id>, createdOn: int, deploymentId: nat, takesEffect: bool, heard: bool)
    | SmokeDone(passed: bool)
    | Save
    | Remove(takesEffect: bool)

  /** Other actors create previews under new ids, delete, rename and redeploy, but never reuse an id,
      change a creation time, or deploy with this journal's tag. */
  predicate OthersMay(c: Config, s: State, previews: Previews, unused: Id) {
    MayBecome(c, s.previews, s.unused, previews, unused)
  }

  predicate MayBecome(c: Config, before: Previews, unusedBefore: Id, previews: Previews, unused: Id) {
    && unused >= unusedBefore
    && forall id <- previews ::
         && id < unused
         && (id in before ==> previews[id].createdOn == before[id].createdOn)
         && (id !in before ==> id >= unusedBefore)
         && forall d <- previews[id].deployments :: d.tag == c.tag ==>
              id in before && d in before[id].deployments
  }

  function Go(s: State, journal: Journal, at: Point): State {
    s.(process := Busy(journal, at, if s.process.Busy? then s.process.evidence else None))
  }

  function Stop(s: State): State {
    s.(process := Idle)
  }

  /** The state after an event; events that do not fit the state change nothing. */
  function Step(c: Config, s: State, e: Event): State {
    match e
    case Others(previews, unused) =>
      if OthersMay(c, s, previews, unused) then s.(previews := previews, unused := unused) else s
    case Crash => Stop(s)
    case StartCreate =>
      if s.process.Idle? && s.saves == [] then Go(s, Journal(Intent, None, None), Inspecting) else s
    case StartCleanup =>
      if s.process.Idle? && s.saves != [] then Go(s, OnDisk(s).value, Reading) else s
    case _ => if s.process.Busy? then Act(c, s, e) else s
  }

  function Act(c: Config, s: State, e: Event): State
    requires s.process.Busy?
  {
    var j, at := s.process.journal, s.process.at;
    match (at, e)
    case (Inspecting, Answer(read)) =>
      if !TrueRead(s.previews, c.name, read) then s
      else if read.Absent? then Go(s, j, SavingIntent) else Stop(s)
    case (SavingIntent, Save) => Write(s, if c.createEmpty then Creating else Deploying)
    case (Creating, Post(createdOn, takesEffect, heard)) => DoPost(c, s, createdOn, takesEffect, heard)
    case (SavingCreated, Save) => Write(s, Deploying)
    case (Deploying, Deploy(onto, createdOn, deploymentId, takesEffect, heard)) =>
      DoDeploy(c, s, onto, createdOn, deploymentId, takesEffect, heard)
    case (SavingDeployed, Save) => Write(s, Smoking)
    case (Smoking, SmokeDone(passed)) => Go(s, if passed then j else j.(status := SmokeFailed), SavingLast)
    case (SavingLast, Save) => Stop(Write(s, SavingLast))
    case (Reading, Answer(read)) => if TrueRead(s.previews, c.name, read) then AfterRead(c, s, read) else s
    case (ReadingLatest(found), AnswerLatest(latest)) =>
      if TrueLatest(s.previews, found.id, latest) then AfterOwnership(s, FromLatest(c, j, found, latest)) else s
    case (ReadingLegacy(found), AnswerLegacy(d)) => AfterLegacy(c, s, found, d)
    case (SavingProof, Save) => Write(s, Removing)
    case (Removing, Remove(takesEffect)) => DoRemove(s, takesEffect)
    case (Confirming, Answer(read)) => if TrueRead(s.previews, c.name, read) then AfterConfirm(s, read) else s
    case _ => s
  }

  /** An atomic journal save: the file is the old version or the new one, never between. */
  function Write(s: State, next: Point): State
    requires s.process.Busy?
  {
    s.(saves := s.saves + [Saved(s.process.journal, s.process.evidence)],
       process := Busy(s.process.journal, next, s.process.evidence))
  }

  /** POST produces a preview under a fresh id, or nothing; its reply may be lost either way. */
  function DoPost(c: Config, s: State, createdOn: int, takesEffect: bool, heard: bool): State
    requires s.process.Busy?
  {
    var j := s.process.journal;
    var s1 := if takesEffect
              then s.(previews := s.previews[s.unused := Remote(c.name, createdOn, [])],
                      unused := s.unused + 1, own := s.own + {s.unused})
              else s;
    if takesEffect && heard
    then Go(s1, j.(status := Created, preview := Some(Identity(s.unused, c.name, createdOn))), SavingCreated)
    else Go(s1, j.(status := Unknown), SavingLast)
  }

  /** The deployment goes to whatever preview bears the name, or makes one; its reply may be lost. */
  function DoDeploy(c: Config, s: State, onto: Option<Id>, createdOn: int, deploymentId: nat, takesEffect: bool,
                    heard: bool): State
    requires s.process.Busy?
  {
    var j := s.process.journal;
    var d := Deployment(deploymentId, c.tag);
    if onto.Some? && !(onto.value in s.previews && s.previews[onto.value].name == c.name) then s
    else if !takesEffect then Go(s, j.(status := Unknown), SavingLast)
    else
      var id := if onto.Some? then onto.value else s.unused;
      var old_ := if onto.Some? then s.previews[id] else Remote(c.name, createdOn, []);
      var remote := old_.(deployments := old_.deployments + [d]);
      var s1 := s.(previews := s.previews[id := remote], unused := if onto.Some? then s.unused else s.unused + 1);
      var receipt := Identity(id, c.name, remote.createdOn);
      if !heard || (j.preview.Some? && !SameIdentity(receipt, j.preview.value))
      then Go(s1, j.(status := Unknown), SavingLast)
      else Go(s1, Journal(Deployed, Some(receipt), Some(d)), SavingDeployed)
  }

  function AfterRead(c: Config, s: State, read: Read): State
    requires s.process.Busy? && TrueRead(s.previews, c.name, read)
  {
    var j := s.process.journal;
    match read
    case Absent => s.(process := Busy(j.(status := Cleaned), SavingLast, Some(s.previews)))
    case ReadFailed => Stop(s)
    case Found(id) =>
      var found := IdentityOf(s.previews, id);
      if c.recover then Go(s, j, ReadingLatest(found))
      else if LegacyCandidate(c, j, found) then Go(s, j, ReadingLegacy(found)) else Stop(s)
  }

  function AfterLegacy(c: Config, s: State, found: Identity, d: Option<Deployment>): State
    requires s.process.Busy?
  {
    var j := s.process.journal;
    if d.Some? && j.deployment.Some? && d.value.id == j.deployment.value.id && d.value.tag == c.tag
    then AfterOwnership(s, Owned(found, d)) else Stop(s)
  }

  function AfterOwnership(s: State, o: Ownership): State
    requires s.process.Busy?
  {
    var j := s.process.journal;
    match o
    case Refused => Stop(s)
    case Owned(preview, deployment) =>
      if j.preview.None? || (deployment.Some? && j.deployment.None?)
      then Go(s, Journal(j.status, Some(preview), if deployment.Some? then deployment else j.deployment), SavingProof)
      else Go(s, j, Removing)
  }

  /** remove is given the saved identity, never the name; whatever it returns, absence is re-read. */
  function DoRemove(s: State, takesEffect: bool): State
    requires s.process.Busy?
  {
    if s.process.journal.preview.None? then Stop(s)
    else
      var id := s.process.journal.preview.value.id;
      Go(s.(previews := if takesEffect then s.previews - {id} else s.previews, removals := s.removals + [id]),
         s.process.journal, Confirming)
  }

  function AfterConfirm(s: State, read: Read): State
    requires s.process.Busy?
  {
    var j := s.process.journal;
    if read.Absent? then s.(process := Busy(j.(status := Cleaned), SavingLast, Some(s.previews)))
    else Go(s, j.(status := Unknown), SavingLast)
  }

  function Run(c: Config, s: State, events: seq<Event>): State {
    if events == [] then s else Step(c, Run(c, s, events[..|events| - 1]), events[|events| - 1])
  }

  // ---------- What every run keeps ----------

  ghost predicate Tagged(c: Config, previews: Previews) {
    exists id, d :: id in previews && d in previews[id].deployments && d.tag == c.tag
  }

  /** A journal only names a preview its own creation call produced. */
  predicate OwnPreview(c: Config, own: set<Id>, j: Journal) {
    c.createEmpty && j.preview.Some? ==> j.preview.value.id in own
  }

  /** A later journal keeps the identity an earlier one recorded. */
  predicate Follows(earlier: Journal, later: Journal) {
    earlier.preview.Some? ==> later.preview.Some? && SameIdentity(earlier.preview.value, later.preview.value)
  }

  ghost predicate Sound(c: Config, v: Saved) {
    v.journal.status == Cleaned ==> v.evidence.Some? && NameFree(v.evidence.value, c.name)
  }

  /** The journal file's history: identities never change, removal targets are own previews, and
      "cleaned" is new only on the evidence of a read in the same call. */
  ghost predicate GoodHistory(c: Config, own: set<Id>, saves: seq<Saved>) {
    && (forall i | 0 <= i < |saves| :: OwnPreview(c, own, saves[i].journal))
    && (forall i, j | 0 <= i < j < |saves| :: Follows(saves[i].journal, saves[j].journal))
    && (forall i | 0 <= i < |saves| :: Sound(c, saves[i]) || (i > 0 && saves[i - 1].journal.status == Cleaned))
    && (forall i | 0 <= i < |saves| :: saves[i].evidence.Some? ==> NameFree(saves[i].evidence.value, c.name))
  }

  ghost predicate GoodProcess(c: Config, s: State) {
    match s.process
    case Idle => true
    case Busy(j, at, evidence) =>
      && OwnPreview(c, s.own, j)
      && (evidence.Some? ==> NameFree(evidence.value, c.name))
      && (OnDisk(s).Some? ==> Follows(OnDisk(s).value, j))
      && match at
         case Inspecting => j == Journal(Intent, None, None)
         case SavingIntent => j == Journal(Intent, None, None)
         case Creating => j == Journal(Intent, None, None) && s.saves != []
         case SavingCreated => j.status == Created && j.preview.Some? && s.saves != []
         case Deploying => j.status != Cleaned && OnDisk(s) == Some(j) && (c.createEmpty ==> j.preview.Some?)
         case SavingDeployed => j.status == Deployed && j.preview.Some? && s.saves != []
         case Smoking => j.status == Deployed && OnDisk(s) == Some(j)
         case SavingLast => s.saves != [] && (j.status == Cleaned ==> evidence.Some?)
         case Reading => OnDisk(s) == Some(j)
         case ReadingLatest(_) => OnDisk(s) == Some(j)
         case ReadingLegacy(found) => OnDisk(s) == Some(j) && LegacyCandidate(c, j, found)
         case SavingProof => OnDisk(s).Some? && (j.status == Cleaned ==> OnDisk(s).value.status == Cleaned)
           && j.preview.Some?
         case Removing => s.saves != []
         case Confirming => s.saves != []
  }

  ghost predicate Inv(c: Config, s: State) {
    && GoodHistory(c, s.own, s.saves)
    && GoodProcess(c, s)
    && (c.createEmpty && Tagged(c, s.previews) ==> OnDisk(s).Some? && OnDisk(s).value.preview.Some?)
    && (forall i | 0 <= i < |s.removals| :: c.createEmpty ==> s.removals[i] in s.own)
  }

  lemma OthersKeep(c: Config, s: State, previews: Previews, unused: Id)
    requires Inv(c, s) && OthersMay(c, s, previews, unused)
    ensures Inv(c, s.(previews := previews, unused := unused))
  {
    if Tagged(c, previews) {
      var id, d :| id in previews && d in previews[id].deployments && d.tag == c.tag;
      assert id in s.previews && d in s.previews[id].deployments;
      assert Tagged(c, s.previews);
    }
  }

  lemma WriteKeeps(c: Config, s: State, next: Point)
    requires Inv(c, s) && s.process.Busy?
    requires Sound(c, Saved(s.process.journal, s.process.evidence))
             || (s.saves != [] && OnDisk(s).value.status == Cleaned)
    requires GoodProcess(c, Write(s, next))
    ensures Inv(c, Write(s, next))
  {
    var t := Write(s, next);
    var last := s.process.journal;
    forall i, j | 0 <= i < j < |t.saves| ensures Follows(t.saves[i].journal, t.saves[j].journal) {
      if j == |s.saves| && i < |s.saves| - 1 {
        assert Follows(s.saves[i].journal, s.saves[|s.saves| - 1].journal);
      }
    }
    if s.saves != [] {
      assert Follows(OnDisk(s).value, last);
    }
  }

  lemma OwnGrows(c: Config, own: set<Id>, saves: seq<Saved>, id: Id)
    requires GoodHistory(c, own, saves)
    ensures GoodHistory(c, own + {id}, saves)
  {
    forall i | 0 <= i < |saves| ensures OwnPreview(c, own + {id}, saves[i].journal) {
      assert OwnPreview(c, own, saves[i].journal);
    }
  }

  lemma PostKeeps(c: Config, s: State, createdOn: int, takesEffect: bool, heard: bool)
    requires Inv(c, s) && s.process.Busy? && s.process.at == Creating
    ensures Inv(c, DoPost(c, s, createdOn, takesEffect, heard))
  {
    var t := DoPost(c, s, createdOn, takesEffect, heard);
    OwnGrows(c, s.own, s.saves, s.unused);
    if Tagged(c, t.previews) {
      var id, d :| id in t.previews && d in t.previews[id].deployments && d.tag == c.tag;
      assert id in s.previews;
      assert Tagged(c, s.previews);
    }
  }

  lemma DeployKeeps(c: Config, s: State, onto: Option<Id>, createdOn: int, deploymentId: nat, takesEffect: bool,
                    heard: bool)
    requires Inv(c, s) && s.process.Busy? && s.process.at == Deploying
    ensures Inv(c, DoDeploy(c, s, onto, createdOn, deploymentId, takesEffect, heard))
  {
  }

  lemma OwnershipMatches(c: Config, s: State, found: Identity, latest: Latest)
    requires Inv(c, s) && s.process.Busy? && s.process.at == ReadingLatest(found)
    requires TrueLatest(s.previews, found.id, latest)
    ensures var j, o := s.process.journal, FromLatest(c, s.process.journal, found, latest);
            o.Owned? ==>
              (j.preview.Some? ==> SameIdentity(o.preview, j.preview.value)) && (c.createEmpty ==> j.preview.Some?)
  {
    if latest.LatestIs? && latest.deployment.tag == c.tag {
      assert latest.deployment in s.previews[found.id].deployments;
      assert Tagged(c, s.previews);
    }
  }

  lemma AfterOwnershipKeeps(c: Config, s: State, o: Ownership)
    requires Inv(c, s) && s.process.Busy? && OnDisk(s) == Some(s.process.journal)
    requires var j := s.process.journal;
             o.Owned? ==>
               (j.preview.Some? ==> SameIdentity(o.preview, j.preview.value)) && (c.createEmpty ==> j.preview.Some?)
    ensures Inv(c, AfterOwnership(s, o))
  {
  }

  lemma RemoveKeeps(c: Config, s: State, takesEffect: bool)
    requires Inv(c, s) && s.process.Busy? && s.process.at == Removing
    ensures Inv(c, DoRemove(s, takesEffect))
  {
    var t := DoRemove(s, takesEffect);
    if Tagged(c, t.previews) {
      var id, d :| id in t.previews && d in t.previews[id].deployments && d.tag == c.tag;
      assert Tagged(c, s.previews);
    }
  }

  /** Every save in the code goes through here. */
  lemma SaveKeeps(c: Config, s: State)
    requires Inv(c, s) && s.process.Busy?
    ensures Inv(c, Act(c, s, Save))
  {
    var j := s.process.journal;
    match s.process.at
    case SavingIntent => WriteKeeps(c, s, if c.createEmpty then Creating else Deploying);
    case SavingCreated => WriteKeeps(c, s, Deploying);
    case SavingDeployed => WriteKeeps(c, s, Smoking);
    case SavingLast => WriteKeeps(c, s, SavingLast);
    case SavingProof => WriteKeeps(c, s, Removing);
    case _ =>
  }

  lemma ReadKeeps(c: Config, s: State, read: Read)
    requires Inv(c, s) && s.process.Busy? && TrueRead(s.previews, c.name, read)
    ensures s.process.at == Reading ==> Inv(c, AfterRead(c, s, read))
    ensures s.process.at == Confirming ==> Inv(c, AfterConfirm(s, read))
  {
  }

  lemma AnswerKeeps(c: Config, s: State, read: Read)
    requires Inv(c, s) && s.process.Busy?
    ensures Inv(c, Act(c, s, Answer(read)))
  {
    if TrueRead(s.previews, c.name, read) {
      match s.process.at
      case Reading => ReadKeeps(c, s, read);
      case Confirming => ReadKeeps(c, s, read);
      case _ =>
    }
  }

  lemma ActKeeps(c: Config, s: State, e: Event)
    requires Inv(c, s) && s.process.Busy?
    ensures Inv(c, Act(c, s, e))
  {
    match e
    case Save => SaveKeeps(c, s);
    case Answer(read) => AnswerKeeps(c, s, read);
    case Post(createdOn, takesEffect, heard) =>
      if s.process.at == Creating { PostKeeps(c, s, createdOn, takesEffect, heard); }
    case Deploy(onto, createdOn, deploymentId, takesEffect, heard) =>
      if s.process.at == Deploying { DeployKeeps(c, s, onto, createdOn, deploymentId, takesEffect, heard); }
    case AnswerLatest(latest) =>
      if s.process.at.ReadingLatest? && TrueLatest(s.previews, s.process.at.found.id, latest) {
        OwnershipMatches(c, s, s.process.at.found, latest);
        AfterOwnershipKeeps(c, s, FromLatest(c, s.process.journal, s.process.at.found, latest));
      }
    case AnswerLegacy(d) =>
      if s.process.at.ReadingLegacy? {
        AfterOwnershipKeeps(c, s, Owned(s.process.at.found, d));
      }
    case Remove(takesEffect) =>
      if s.process.at == Removing { RemoveKeeps(c, s, takesEffect); }
    case _ =>
  }

  lemma StepKeeps(c: Config, s: State, e: Event)
    requires Inv(c, s)
    ensures Inv(c, Step(c, s, e))
  {
    match e
    case Others(previews, unused) =>
      if OthersMay(c, s, previews, unused) { OthersKeep(c, s, previews, unused); }
    case Crash =>
    case StartCreate =>
    case StartCleanup =>
    case _ =>
      if s.process.Busy? { ActKeeps(c, s, e); }
  }

  /** Every run from a world in which nobody uses the nonce tag: crashes, lost replies, retries and other
      actors between any two calls. */
  lemma {:induction false} RunsKeep(c: Config, previews: Previews, unused: Id, events: seq<Event>)
    requires !Tagged(c, previews)
    ensures Inv(c, Run(c, Start(previews, unused), events))
  {
    if events != [] {
      RunsKeep(c, previews, unused, events[..|events| - 1]);
      StepKeeps(c, Run(c, Start(previews, unused), events[..|events| - 1]), events[|events| - 1]);
    }
  }

  // ---------- When "cleaned" is saved without a read ----------

  /** Both journals record the same preview and deployment. */
  predicate SameProof(a: Journal, b: Journal) {
    a.preview == b.preview && a.deployment == b.deployment
  }

  /** A "cleaned" journal is never the first, and was saved without evidence exactly when that save recorded
      new proof. */
  ghost predicate CleanHistory(saves: seq<Saved>) {
    forall i | 0 <= i < |saves| && saves[i].journal.status == Cleaned ::
      i > 0 && (saves[i].evidence.None? <==> !SameProof(saves[i - 1].journal, saves[i].journal))
  }

  ghost predicate CleanProcess(s: State) {
    match s.process
    case Idle => true
    case Busy(j, at, evidence) =>
      match at
      case SavingLast => j.status == Cleaned ==> evidence.Some? && OnDisk(s).Some? && SameProof(OnDisk(s).value, j)
      case SavingProof => evidence.None? && OnDisk(s).Some? && !SameProof(OnDisk(s).value, j)
      case Reading => evidence.None? && OnDisk(s) == Some(j)
      case ReadingLatest(_) => evidence.None? && OnDisk(s) == Some(j)
      case ReadingLegacy(_) => evidence.None? && OnDisk(s) == Some(j)
      case Removing => OnDisk(s) == Some(j)
      case Confirming => OnDisk(s) == Some(j)
      case _ => j.status != Cleaned
  }

  lemma CleanWrite(s: State, next: Point)
    requires CleanHistory(s.saves) && CleanProcess(s) && s.process.Busy?
    requires s.process.journal.status == Cleaned ==> s.process.at.SavingLast? || s.process.at.SavingProof?
    ensures CleanHistory(Write(s, next).saves) && OnDisk(Write(s, next)) == Some(s.process.journal)
  {
    var saves := Write(s, next).saves;
    assert forall i | 0 <= i < |s.saves| :: saves[i] == s.saves[i];
  }

  lemma CleanSave(c: Config, s: State)
    requires CleanHistory(s.saves) && CleanProcess(s) && s.process.Busy?
    ensures CleanHistory(Act(c, s, Save).saves) && CleanProcess(Act(c, s, Save))
  {
    match s.process.at
    case SavingIntent => CleanWrite(s, if c.createEmpty then Creating else Deploying);
    case SavingCreated => CleanWrite(s, Deploying);
    case SavingDeployed => CleanWrite(s, Smoking);
    case SavingLast => CleanWrite(s, SavingLast);
    case SavingProof => CleanWrite(s, Removing);
    case _ =>
  }

  lemma CleanAnswer(c: Config, s: State, read: Read)
    requires CleanHistory(s.saves) && CleanProcess(s) && s.process.Busy?
    ensures Act(c, s, Answer(read)).saves == s.saves && CleanProcess(Act(c, s, Answer(read)))
  {
  }

  lemma CleanAct(c: Config, s: State, e: Event)
    requires CleanHistory(s.saves) && CleanProcess(s) && s.process.Busy? && !e.Save? && !e.Answer?
    ensures Act(c, s, e).saves == s.saves && CleanProcess(Act(c, s, e))
  {
  }

  /** Events outside the process. */
  predicate Outside(e: Event) {
    e.Others? || e.Crash? || e.StartCreate? || e.StartCleanup?
  }

  lemma CleanOutside(c: Config, s: State, e: Event)
    requires CleanHistory(s.saves) && CleanProcess(s) && Outside(e)
    ensures Step(c, s, e).saves == s.saves && CleanProcess(Step(c, s, e))
  {
  }

  lemma CleanStep(c: Config, s: State, e: Event)
    requires CleanHistory(s.saves) && CleanProcess(s)
    ensures CleanHistory(Step(c, s, e).saves) && CleanProcess(Step(c, s, e))
  {
    hide CleanHistory, CleanProcess;
    if Outside(e) {
      CleanOutside(c, s, e);
    } else if s.process.Busy? {
      assert Step(c, s, e) == Act(c, s, e);
      hide Step, Act;
      if e.Save? {
        CleanSave(c, s);
      } else if e.Answer? {
        CleanAnswer(c, s, e.read);
      } else {
        CleanAct(c, s, e);
      }
    }
  }

  /** In every run: "cleaned" is saved without a read in that call exactly when the save records a preview
      or deployment the journal did not have, which is the proof saved before a removal. */
  lemma {:induction false} CleanedExactly(c: Config, previews: Previews, unused: Id, events: seq<Event>)
    ensures CleanHistory(Run(c, Start(previews, unused), events).saves)
    ensures CleanProcess(Run(c, Start(previews, unused), events))
  {
    if events != [] {
      CleanedExactly(c, previews, unused, events[..|events| - 1]);
      CleanStep(c, Run(c, Start(previews, unused), events[..|events| - 1]), events[|events| - 1]);
    }
  }

  /** The protocol's promises over every run. With a provider that creates previews apart from deploying
      them, `remove` only ever gets an id this journal's own creation call produced; a saved identity
      never changes; and "cleaned" is saved on a read in the same call that found the name absent, exactly
      unless the save records new proof, over a journal that was cleaned already. */
  lemma ProtocolIsSafe(c: Config, previews: Previews, unused: Id, events: seq<Event>)
    requires !Tagged(c, previews) && forall id <- previews :: id < unused
    ensures var s := Run(c, Start(previews, unused), events);
            && (c.createEmpty ==>
                forall i | 0 <= i < |s.removals| :: s.removals[i] in s.own && s.removals[i] !in previews)
            && (forall i, j | 0 <= i < j < |s.saves| && s.saves[i].journal.preview.Some? ::
                  s.saves[j].journal.preview.Some?
                  && SameIdentity(s.saves[i].journal.preview.value, s.saves[j].journal.preview.value))
            && (forall i | 0 <= i < |s.saves| && s.saves[i].journal.status == Cleaned ::
                  i > 0 && if SameProof(s.saves[i - 1].journal, s.saves[i].journal)
                           then s.saves[i].evidence.Some? && NameFree(s.saves[i].evidence.value, c.name)
                           else s.saves[i].evidence.None? && s.saves[i - 1].journal.status == Cleaned)
  {
    var s := Run(c, Start(previews, unused), events);
    RunsKeep(c, previews, unused, events);
    OwnIsNew(c, previews, unused, events);
    CleanedExactly(c, previews, unused, events);
    forall i, j | 0 <= i < j < |s.saves| && s.saves[i].journal.preview.Some?
      ensures s.saves[j].journal.preview.Some?
              && SameIdentity(s.saves[i].journal.preview.value, s.saves[j].journal.preview.value)
    {
      assert Follows(s.saves[i].journal, s.saves[j].journal);
    }
    forall i | 0 <= i < |s.saves| && s.saves[i].journal.status == Cleaned
      ensures i > 0 && if SameProof(s.saves[i - 1].journal, s.saves[i].journal)
                       then s.saves[i].evidence.Some? && NameFree(s.saves[i].evidence.value, c.name)
                       else s.saves[i].evidence.None? && s.saves[i - 1].journal.status == Cleaned
    {
      SavedOnEvidence(c, s, i);
    }
  }

  lemma SavedOnEvidence(c: Config, s: State, i: nat)
    requires GoodHistory(c, s.own, s.saves) && CleanHistory(s.saves)
             && i < |s.saves| && s.saves[i].journal.status == Cleaned
    ensures s.saves[i].evidence.Some? ==> NameFree(s.saves[i].evidence.value, c.name)
    ensures i > 0 && (s.saves[i].evidence.None? ==> s.saves[i - 1].journal.status == Cleaned)
  {
    assert Sound(c, s.saves[i]) || (i > 0 && s.saves[i - 1].journal.status == Cleaned);
  }

  /** No id is ever given out twice: those in use or made by the creation call lie below the first unused one,
      and those of the creation call were not in use before the run. */
  lemma {:induction false} OwnIsNew(c: Config, previews: Previews, unused: Id, events: seq<Event>)
    requires forall id <- previews :: id < unused
    ensures var s := Run(c, Start(previews, unused), events);
            && s.unused >= unused && (forall id <- s.own :: unused <= id < s.unused)
            && (forall id <- s.previews :: id < s.unused)
  {
    if events != [] {
      OwnIsNew(c, previews, unused, events[..|events| - 1]);
      OwnStep(c, Run(c, Start(previews, unused), events[..|events| - 1]), events[|events| - 1], unused);
    }
  }

  lemma OwnStep(c: Config, s: State, e: Event, unused: Id)
    requires s.unused >= unused && (forall id <- s.own :: unused <= id < s.unused)
    requires forall id <- s.previews :: id < s.unused
    ensures var t := Step(c, s, e);
            && t.unused >= unused && (forall id <- t.own :: unused <= id < t.unused)
            && (forall id <- t.previews :: id < t.unused)
  {
  }

  // ---------- What a removal rests on ----------

  function LatestDeployed(previews: Previews, id: Id): Option<Deployment> {
    if id !in previews || previews[id].deployments == [] then None
    else Some(previews[id].deployments[|previews[id].deployments| - 1])
  }

  /** The preview found under the journal's name is the recorded one, if one is recorded, and its latest
      deployment bears the tag and is the recorded one, if one is recorded; a preview without deployments
      has to be recorded without one. */
  predicate Proven(c: Config, j: Journal, previews: Previews, found: Identity) {
    && found.name == c.name
    && (j.preview.Some? ==> SameIdentity(found, j.preview.value))
    && match LatestDeployed(previews, found.id)
       case Some(d) => d.tag == c.tag && (j.deployment.Some? ==> d.id == j.deployment.value.id)
       case None => j.preview.Some? && j.deployment.None?
  }

  /** Ownership is granted exactly on that proof, read truthfully, and then of the preview found with its latest
      deployment. */
  lemma OwnershipExactly(c: Config, j: Journal, previews: Previews, found: Identity, latest: Latest)
    requires TrueLatest(previews, found.id, latest)
    ensures FromLatest(c, j, found, latest)
            == if !latest.LatestFailed? && Proven(c, j, previews, found)
               then Owned(found, LatestDeployed(previews, found.id)) else Refused
  {
  }

  /** The recorded deployment of the recorded preview, read again, with the tag. */
  predicate ProvenLegacy(c: Config, j: Journal, found: Identity, d: Deployment) {
    && j.preview.Some? && SameIdentity(found, j.preview.value) && found.name == c.name
    && j.deployment.Some? && d.id == j.deployment.value.id && d.tag == c.tag
  }

  /** In this state a read gives such proof for the preview. */
  predicate Grants(c: Config, s: State, e: Event, id: Id) {
    s.process.Busy? &&
    match (s.process.at, e)
    case (ReadingLatest(found), AnswerLatest(latest)) =>
      && found.id == id && !latest.LatestFailed? && TrueLatest(s.previews, id, latest)
      && Proven(c, s.process.journal, s.previews, found)
    case (ReadingLegacy(found), AnswerLegacy(Some(d))) =>
      found.id == id && ProvenLegacy(c, s.process.journal, found, d)
    case _ => false
  }

  /** Step k of the run was such a read, and the call has not ended since. */
  ghost predicate GrantedAt(c: Config, start: State, events: seq<Event>, k: nat, id: Id)
    requires k < |events|
  {
    && Grants(c, Run(c, start, events[..k]), events[k], id)
    && forall m | k < m <= |events| :: Run(c, start, events[..m]).process.Busy?
  }

  ghost predicate Granted(c: Config, start: State, events: seq<Event>, id: Id) {
    exists k :: 0 <= k < |events| && GrantedAt(c, start, events, k, id)
  }

  /** What is about to be removed has been granted, and legacy reads are of candidates. */
  ghost predicate Grounded(c: Config, start: State, events: seq<Event>) {
    match Run(c, start, events).process
    case Idle => true
    case Busy(j, at, _) =>
      match at
      case ReadingLegacy(found) => LegacyCandidate(c, j, found)
      case SavingProof => j.preview.Some? && Granted(c, start, events, j.preview.value.id)
      case Removing => j.preview.Some? && Granted(c, start, events, j.preview.value.id)
      case _ => true
  }

  lemma GrantedOnward(c: Config, start: State, events: seq<Event>, e: Event, id: Id)
    requires Granted(c, start, events, id) && Run(c, start, events + [e]).process.Busy?
    ensures Granted(c, start, events + [e], id)
  {
    hide Step, Grants;
    var k :| 0 <= k < |events| && GrantedAt(c, start, events, k, id);
    var all := events + [e];
    assert all[..k] == events[..k] && all[..|all|] == all;
    forall m | k < m <= |all| ensures Run(c, start, all[..m]).process.Busy? {
      if m <= |events| { assert all[..m] == events[..m]; }
    }
    assert GrantedAt(c, start, all, k, id);
  }

  lemma GrantedNow(c: Config, start: State, events: seq<Event>, e: Event, id: Id)
    requires Grants(c, Run(c, start, events), e, id) && Run(c, start, events + [e]).process.Busy?
    ensures Granted(c, start, events + [e], id)
  {
    var all := events + [e];
    assert all[..|events|] == events && all[..|all|] == all;
    assert GrantedAt(c, start, all, |events|, id);
  }

  /** Only a granting read leads to a removal or the save before it. */
  lemma OnlyGrantsLead(c: Config, s: State, e: Event)
    requires s.process.Busy? && !s.process.at.SavingProof? && !s.process.at.Removing?
    requires s.process.at.ReadingLegacy? ==> LegacyCandidate(c, s.process.journal, s.process.at.found)
    requires var t := Step(c, s, e); t.process.Busy? && (t.process.at.SavingProof? || t.process.at.Removing?)
    ensures var t := Step(c, s, e);
            t.process.journal.preview.Some? && Grants(c, s, e, t.process.journal.preview.value.id)
  {
    if s.process.at.ReadingLatest? && e.AnswerLatest? {
      OwnershipExactly(c, s.process.journal, s.previews, s.process.at.found, e.latest);
    }
  }

  lemma LegacyIsCandidate(c: Config, s: State, e: Event)
    requires s.process.Busy? && s.process.at.ReadingLegacy? ==>
             LegacyCandidate(c, s.process.journal, s.process.at.found)
    ensures var t := Step(c, s, e);
            t.process.Busy? && t.process.at.ReadingLegacy? ==> LegacyCandidate(c, t.process.journal, t.process.at.found)
  {
  }

  lemma ProofKept(c: Config, s: State, e: Event)
    requires s.process.Busy? && (s.process.at.SavingProof? || s.process.at.Removing?)
    ensures var t := Step(c, s, e);
            t.process.Busy? && (t.process.at.SavingProof? || t.process.at.Removing? || t.process.at.ReadingLegacy?) ==>
              t.process.journal == s.process.journal && !t.process.at.ReadingLegacy?
  {
  }

  lemma IdleLeadsNowhere(c: Config, s: State, e: Event)
    requires s.process.Idle?
    ensures var t := Step(c, s, e);
            t.process.Busy? ==> t.process.at.Inspecting? || t.process.at.Reading?
  {
  }

  lemma GroundedStep(c: Config, start: State, events: seq<Event>, e: Event)
    requires Grounded(c, start, events)
    ensures Grounded(c, start, events + [e])
  {
    var s, t := Run(c, start, events), Run(c, start, events + [e]);
    assert (events + [e])[..|events|] == events && t == Step(c, s, e);
    hide Step, Grants, Granted, Run;
    LegacyIsCandidate(c, s, e);
    if s.process.Idle? {
      IdleLeadsNowhere(c, s, e);
    } else if t.process.Busy? && (t.process.at.SavingProof? || t.process.at.Removing?) {
      if s.process.at.SavingProof? || s.process.at.Removing? {
        ProofKept(c, s, e);
        GrantedOnward(c, start, events, e, t.process.journal.preview.value.id);
      } else {
        OnlyGrantsLead(c, s, e);
        GrantedNow(c, start, events, e, t.process.journal.preview.value.id);
      }
    }
  }

  lemma {:induction false} RunsGrounded(c: Config, previews: Previews, unused: Id, events: seq<Event>)
    ensures Grounded(c, Start(previews, unused), events)
  {
    if events != [] {
      RunsGrounded(c, previews, unused, events[..|events| - 1]);
      GroundedStep(c, Start(previews, unused), events[..|events| - 1], events[|events| - 1]);
      assert events[..|events| - 1] + [events[|events| - 1]] == events;
    }
  }

  /** Whenever a step of a run removes: one preview, for which a read in the same call gave proof. */
  lemma RemovalsRestOnProof(c: Config, previews: Previews, unused: Id, events: seq<Event>, e: Event)
    requires var start := Start(previews, unused);
             Run(c, start, events + [e]).removals != Run(c, start, events).removals
    ensures var start := Start(previews, unused);
            exists id :: Granted(c, start, events, id)
                         && Run(c, start, events + [e]).removals == Run(c, start, events).removals + [id]
  {
    var start := Start(previews, unused);
    RunsGrounded(c, previews, unused, events);
    assert (events + [e])[..|events|] == events;
    OnlyRemovingRemoves(c, Run(c, start, events), e);
    hide Granted, Step, Run;
  }

  lemma OnlyRemovingRemoves(c: Config, s: State, e: Event)
    requires Step(c, s, e).removals != s.removals
    ensures s.process.Busy? && s.process.at.Removing? && s.process.journal.preview.Some?
    ensures Step(c, s, e).removals == s.removals + [s.process.journal.preview.value.id]
  {
  }

  // ---------- Where the promises stop ----------

  ghost predicate Reachable(c: Config, start: State, s: State) {
    exists events :: Run(c, start, events) == s
  }

  lemma ReachStep(c: Config, start: State, s: State, e: Event)
    requires Reachable(c, start, s)
    ensures Reachable(c, start, Step(c, s, e))
  {
    var events :| Run(c, start, events) == s;
    assert (events + [e])[..|events|] == events;
    assert Run(c, start, events + [e]) == Step(c, s, e);
  }

  // One lemma for each kind of step the two runs below take.

  lemma ByCrash(c: Config, start: State, s: State)
    requires Reachable(c, start, s)
    ensures Reachable(c, start, s.(process := Idle))
  {
    ReachStep(c, start, s, Crash);
  }

  lemma ByOthers(c: Config, start: State, s: State, previews: Previews, unused: Id)
    requires Reachable(c, start, s) && OthersMay(c, s, previews, unused)
    ensures Reachable(c, start, s.(previews := previews, unused := unused))
  {
    ReachStep(c, start, s, Others(previews, unused));
  }

  lemma ByStartCleanup(c: Config, start: State, s: State)
    requires Reachable(c, start, s) && s.process.Idle? && s.saves != []
    ensures Reachable(c, start, s.(process := Busy(OnDisk(s).value, Reading, None)))
  {
    ReachStep(c, start, s, StartCleanup);
  }

  lemma ByFound(c: Config, start: State, s: State, id: Id)
    requires c.recover && Reachable(c, start, s) && s.process.Busy? && s.process.at == Reading
    requires id in s.previews && s.previews[id].name == c.name
    ensures Reachable(c, start, Go(s, s.process.journal, ReadingLatest(IdentityOf(s.previews, id))))
  {
    ReachStep(c, start, s, Answer(Found(id)));
  }

  lemma ByLatest(c: Config, start: State, s: State, d: Deployment)
    requires Reachable(c, start, s) && s.process.Busy? && s.process.at.ReadingLatest?
    requires TrueLatest(s.previews, s.process.at.found.id, LatestIs(d))
    ensures Reachable(c, start, AfterOwnership(s, FromLatest(c, s.process.journal, s.process.at.found, LatestIs(d))))
  {
    ReachStep(c, start, s, AnswerLatest(LatestIs(d)));
  }

  lemma ByLegacy(c: Config, start: State, s: State, id: Id, d: Deployment)
    requires !c.recover && Reachable(c, start, s) && id in s.previews && s.previews[id].name == c.name && d.tag == c.tag
    requires s.process == Busy(Journal(Deployed, Some(IdentityOf(s.previews, id)), Some(d)), Reading, None)
    ensures Reachable(c, start, s.(process := Busy(s.process.journal, Removing, None)))
  {
    var found := IdentityOf(s.previews, id);
    ReachStep(c, start, s, Answer(Found(id)));
    ReachStep(c, start, s.(process := Busy(s.process.journal, ReadingLegacy(found), None)), AnswerLegacy(Some(d)));
  }

  lemma BySave(c: Config, start: State, s: State)
    requires Reachable(c, start, s) && s.process.Busy?
    ensures s.process.at == SavingCreated ==> Reachable(c, start, Write(s, Deploying))
    ensures s.process.at == SavingDeployed ==> Reachable(c, start, Write(s, Smoking))
    ensures s.process.at == SavingProof ==> Reachable(c, start, Write(s, Removing))
    ensures s.process.at == SavingLast ==> Reachable(c, start, Stop(Write(s, SavingLast)))
  {
    ReachStep(c, start, s, Save);
  }

  lemma ByDeploy(c: Config, start: State, s: State, id: Id, heard: bool)
    requires Reachable(c, start, s) && s.process.Busy? && s.process.at == Deploying
    ensures Reachable(c, start, DoDeploy(c, s, Some(id), 0, 0, true, heard))
  {
    ReachStep(c, start, s, Deploy(Some(id), 0, 0, true, heard));
  }

  lemma ByPost(c: Config, start: State, s: State, createdOn: int)
    requires Reachable(c, start, s) && s.process.Busy? && s.process.at == Creating
    ensures Reachable(c, start, DoPost(c, s, createdOn, true, true))
  {
    ReachStep(c, start, s, Post(createdOn, true, true));
  }

  lemma ByRemove(c: Config, start: State, s: State)
    requires Reachable(c, start, s) && s.process.Busy? && s.process.at == Removing
    ensures Reachable(c, start, DoRemove(s, true))
  {
    ReachStep(c, start, s, Remove(true));
  }

  const NOTHING: Journal := Journal(Intent, None, None)

  lemma CreateReaches(c: Config)
    ensures var start := Start(map[], 0);
            Reachable(c, start, State(map[], 0, Busy(NOTHING, if c.createEmpty then Creating else Deploying, None),
                                      {}, [], [Saved(NOTHING, None)]))
  {
    var start := Start(map[], 0);
    assert Run(c, start, []) == start;
    ReachStep(c, start, start, StartCreate);
    var s := State(map[], 0, Busy(NOTHING, Inspecting, None), {}, [], []);
    ReachStep(c, start, s, Answer(Absent));
    var t := State(map[], 0, Busy(NOTHING, SavingIntent, None), {}, [], []);
    ReachStep(c, start, t, Save);
    assert [] + [Saved(NOTHING, None)] == [Saved(NOTHING, None)];
  }

  /** From an idle state with a saved proof that still holds, a cleanup removes the preview. */
  lemma CleanupReaches(c: Config, start: State, s: State, id: Id, d: Deployment)
    requires Reachable(c, start, s) && s.process.Idle? && s.removals == []
    requires id in s.previews && s.previews[id].name == c.name && s.previews[id].deployments == [d] && d.tag == c.tag
    requires OnDisk(s) == Some(Journal(Deployed, Some(IdentityOf(s.previews, id)), Some(d)))
    ensures exists t: State ::
              Reachable(c, start, t) && t.own == s.own && t.removals == [id] && t.previews == s.previews - {id}
  {
    var j, found := OnDisk(s).value, IdentityOf(s.previews, id);
    ByStartCleanup(c, start, s);
    if c.recover {
      ByFound(c, start, s.(process := Busy(j, Reading, None)), id);
      ByLatest(c, start, s.(process := Busy(j, ReadingLatest(found), None)), d);
    } else {
      ByLegacy(c, start, s.(process := Busy(j, Reading, None)), id, d);
    }
    var t := s.(process := Busy(j, Removing, None));
    ByRemove(c, start, t);
    assert DoRemove(t, true).removals == [id];
  }

  /** Without a separate creation call the first promise fails: a preview another actor makes under the
      name, after it was seen free, receives the deployment and is later removed as if it were owned. */
  lemma SharedPreviewRemoved(c: Config)
    requires !c.createEmpty
    ensures exists s :: Reachable(c, Start(map[], 0), s) && s.own == {} && s.removals == [0]
  {
    var start := Start(map[], 0);
    var d := Deployment(0, c.tag);
    var theirs, tagged: Previews := map[0 := Remote(c.name, 7, [])], map[0 := Remote(c.name, 7, [d])];
    var done := Journal(Deployed, Some(Identity(0, c.name, 7)), Some(d));
    var saved := [Saved(NOTHING, None)];
    CreateReaches(c);
    ByOthers(c, start, State(map[], 0, Busy(NOTHING, Deploying, None), {}, [], saved), theirs, 1);
    assert [] + [d] == [d] && theirs[0 := Remote(c.name, 7, [d])] == tagged;
    ByDeploy(c, start, State(theirs, 1, Busy(NOTHING, Deploying, None), {}, [], saved), 0, true);
    BySave(c, start, State(tagged, 1, Busy(done, SavingDeployed, None), {}, [], saved));
    var saved2 := saved + [Saved(done, None)];
    ByCrash(c, start, State(tagged, 1, Busy(done, Smoking, None), {}, [], saved2));
    CleanupReaches(c, start, State(tagged, 1, Idle, {}, [], saved2), 0, d);
  }

  /** Every removal of every run from a world without the nonce tag is of a preview this journal's own
      creation call produced. */
  ghost predicate RemovesOnlyOwn(c: Config) {
    forall previews: Previews, unused: Id, events: seq<Event> | !Tagged(c, previews)
      && (forall id <- previews :: id < unused) ::
      var s := Run(c, Start(previews, unused), events); forall i | 0 <= i < |s.removals| :: s.removals[i] in s.own
  }

  /** That is exactly what the separate creation call is for, with or without deployment recovery. */
  lemma RemovesOnlyOwnExactly(c: Config)
    ensures RemovesOnlyOwn(c) <==> c.createEmpty
  {
    if c.createEmpty {
      forall previews: Previews, unused: Id, events: seq<Event> | !Tagged(c, previews)
        && (forall id <- previews :: id < unused)
        ensures var s := Run(c, Start(previews, unused), events); forall i | 0 <= i < |s.removals| ::
                s.removals[i] in s.own
      {
        ProtocolIsSafe(c, previews, unused, events);
      }
    } else {
      SharedPreviewRemoved(c);
      var s :| Reachable(c, Start(map[], 0), s) && s.own == {} && s.removals == [0];
      var events :| Run(c, Start(map[], 0), events) == s;
      var none: Previews := map[];
      assert !Tagged(c, none) && Run(c, Start(none, 0), events).removals[0] !in s.own;
    }
  }

  /** A second cleanup can write "cleaned" again without such a read: the journal was cleaned while the
      preview bore another name, the name came back, and the recovered deployment proof is saved before
      removal with the old status. */
  lemma CleanedRewritten(c: Config)
    requires c.createEmpty && c.recover && c.name != ""
    ensures exists s: State :: Reachable(c, Start(map[], 0), s) && s.saves != []
              && OnDisk(s).value.status == Cleaned && s.saves[|s.saves| - 1].evidence == None
              && !NameFree(s.previews, c.name)
  {
    var d, me := Deployment(0, c.tag), Identity(0, c.name, 7);
    var s := LostDeployReached(c);
    var t := RenamedCleanup(c, Start(map[], 0), s, me, d);
    RecoveredProof(c, Start(map[], 0), t, me, d);
  }

  lemma PostReached(c: Config)
    requires c.createEmpty
    ensures var me := Identity(0, c.name, 7);
            Reachable(c, Start(map[], 0),
                      State(map[0 := Remote(c.name, 7, [])], 1,
                            Busy(Journal(Created, Some(me), None), SavingCreated, None), {0}, [],
                            [Saved(NOTHING, None)]))
  {
    var free: Previews := map[];
    assert free[0 := Remote(c.name, 7, [])] == map[0 := Remote(c.name, 7, [])];
    CreateReaches(c);
    ByPost(c, Start(map[], 0), State(free, 0, Busy(NOTHING, Creating, None), {}, [], [Saved(NOTHING, None)]), 7);
  }

  lemma LostDeployReached(c: Config) returns (s: State)
    requires c.createEmpty
    ensures Reachable(c, Start(map[], 0), s) && s.process.Idle? && s.unused == 1
    ensures s.previews == map[0 := Remote(c.name, 7, [Deployment(0, c.tag)])]
    ensures OnDisk(s) == Some(Journal(Unknown, Some(Identity(0, c.name, 7)), None))
  {
    var start := Start(map[], 0);
    var d, me := Deployment(0, c.tag), Identity(0, c.name, 7);
    var created, lost := Journal(Created, Some(me), None), Journal(Unknown, Some(me), None);
    var empty, tagged := map[0 := Remote(c.name, 7, [])], map[0 := Remote(c.name, 7, [d])];
    assert [] + [d] == [d] && empty[0 := Remote(c.name, 7, [d])] == tagged;
    var saves := [Saved(NOTHING, None)];
    PostReached(c);
    BySave(c, start, State(empty, 1, Busy(created, SavingCreated, None), {0}, [], saves));
    var saves2 := saves + [Saved(created, None)];
    ByDeploy(c, start, State(empty, 1, Busy(created, Deploying, None), {0}, [], saves2), 0, false);
    BySave(c, start, State(tagged, 1, Busy(lost, SavingLast, None), {0}, [], saves2));
    s := State(tagged, 1, Idle, {0}, [], saves2 + [Saved(lost, None)]);
  }

  /** The preview is renamed away, a cleanup finds the name free and saves "cleaned", and the preview is
      renamed back. */
  lemma RenamedCleanup(c: Config, start: State, s: State, me: Identity, d: Deployment) returns (t: State)
    requires c.name != "" && me.name == c.name && Reachable(c, start, s) && s.process.Idle?
    requires s.previews == map[me.id := Remote(c.name, me.createdOn, [d])] && me.id < s.unused
    requires OnDisk(s) == Some(Journal(Unknown, Some(me), None))
    ensures Reachable(c, start, t) && t.process.Idle? && t.previews == s.previews && t.unused == s.unused
    ensures OnDisk(t) == Some(Journal(Cleaned, Some(me), None))
  {
    var renamed := map[me.id := Remote("", me.createdOn, [d])];
    var lost, cleaned := OnDisk(s).value, Journal(Cleaned, Some(me), None);
    var a := s.(previews := renamed);
    ByOthers(c, start, s, renamed, s.unused);
    ByStartCleanup(c, start, a);
    ReachStep(c, start, a.(process := Busy(lost, Reading, None)), Answer(Absent));
    BySave(c, start, a.(process := Busy(cleaned, SavingLast, Some(renamed))));
    var f := a.(saves := s.saves + [Saved(cleaned, Some(renamed))]);
    ByOthers(c, start, f, s.previews, s.unused);
    t := f.(previews := s.previews);
  }

  lemma RecoveredProof(c: Config, start: State, s: State, me: Identity, d: Deployment)
    requires c.recover && me.name == c.name && d.tag == c.tag && Reachable(c, start, s) && s.process.Idle?
    requires s.previews == map[me.id := Remote(c.name, me.createdOn, [d])]
    requires OnDisk(s) == Some(Journal(Cleaned, Some(me), None))
    ensures exists t: State :: Reachable(c, start, t) && t.saves != []
              && OnDisk(t).value.status == Cleaned && t.saves[|t.saves| - 1].evidence == None
              && !NameFree(t.previews, c.name)
  {
    var cleaned, proof := OnDisk(s).value, Journal(Cleaned, Some(me), Some(d));
    ByStartCleanup(c, start, s);
    ByFound(c, start, s.(process := Busy(cleaned, Reading, None)), me.id);
    ByLatest(c, start, s.(process := Busy(cleaned, ReadingLatest(me), None)), d);
    var e := s.(process := Busy(proof, SavingProof, None));
    BySave(c, start, e);
    assert me.id in s.previews && OnDisk(Write(e, Removing)) == Some(proof);
  }
}
