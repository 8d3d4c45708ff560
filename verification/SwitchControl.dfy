/** From a camera's status to its switch's access-control list: the status handler of
    lib/ftm_catchb.c queues controls, the detector thread of lib/ftm_detector.c applies them to
    the lists of lib/ftm_switch.c. The switch device itself is an oracle. */
module SwitchControl {
  import opened Sequences
  import opened Names

  datatype Stat = Unregistered | Unused | Normal | Abnormal
  datatype Policy = Allow | Deny
  datatype Control = Control(switchId: string, ip: string, policy: Policy)
  datatype AC = AC(ip: string, policy: Policy)

  // ---- The access-control list of one switch ----

  function ForIp(ip: string): AC -> bool {
    (ac: AC) => SameIgnoringCase(ac.ip, ip)
  }

  ghost predicate Listed(acs: seq<AC>, ip: string) {
    FirstWhere(acs, ForIp(ip)) < |acs|
  }

  /** No address has two entries. */
  ghost predicate OneEntryEach(acs: seq<AC>) {
    forall i, j :: 0 <= i < j < |acs| ==> !SameIgnoringCase(acs[i].ip, acs[j].ip)
  }

  /** The list after one control; deviceOk is whether the switch carried out the command. A
      denial is recorded either way, an allowance removes the entry only if it was carried out. */
  ghost function Controlled(acs: seq<AC>, ip: string, policy: Policy, deviceOk: bool): seq<AC> {
    var k := FirstWhere(acs, ForIp(ip));
    if k == |acs| then
      if policy == Deny then acs + [AC(ip, Deny)] else acs
    else if policy == Allow && deviceOk then RemovedAt(acs, k)
    else acs
  }

  lemma ListedIff(acs: seq<AC>, ip: string)
    ensures Listed(acs, ip) <==> exists i :: 0 <= i < |acs| && SameIgnoringCase(acs[i].ip, ip)
  {
  }

  /** A denial adds a denying entry for an address that has none; an allowance adds nothing. */
  lemma ControlledEntries(acs: seq<AC>, ip: string, policy: Policy, deviceOk: bool)
    ensures var next := Controlled(acs, ip, policy, deviceOk);
            && (policy == Deny ==> next == if Listed(acs, ip) then acs else acs + [AC(ip, Deny)])
            && (policy == Allow ==> multiset(next) <= multiset(acs))
            && (policy == Allow && !(Listed(acs, ip) && deviceOk) ==> next == acs)
  {
    var k := FirstWhere(acs, ForIp(ip));
    if k < |acs| {
      RemovedMultiset(acs, k);
    }
  }

  /** What an obeyed allowance takes away is the first entry of the address. */
  lemma AllowedEntry(acs: seq<AC>, ip: string, k: nat)
    requires k < |acs| && SameIgnoringCase(acs[k].ip, ip)
    requires forall j :: 0 <= j < k ==> !SameIgnoringCase(acs[j].ip, ip)
    ensures Controlled(acs, ip, Allow, true) == acs[..k] + acs[k + 1..]
  {
    FirstWhereIs(acs, ForIp(ip), k);
  }

  /** The controlled address is listed afterwards exactly if it was denied, or was already listed
      and the device did not carry out the allowance; other addresses are unaffected. */
  lemma ControlledListed(acs: seq<AC>, ip: string, policy: Policy, deviceOk: bool, other: string)
    requires OneEntryEach(acs)
    ensures var next := Controlled(acs, ip, policy, deviceOk);
            && (SameIgnoringCase(other, ip) ==>
                  (Listed(next, other) <==> policy == Deny || (Listed(acs, ip) && !deviceOk)))
            && (!SameIgnoringCase(other, ip) ==> (Listed(next, other) <==> Listed(acs, other)))
  {
    var k := FirstWhere(acs, ForIp(ip));
    var next := Controlled(acs, ip, policy, deviceOk);
    ListedIff(acs, ip);
    ListedIff(acs, other);
    ListedIff(next, other);
    if k < |acs| && policy == Allow && deviceOk {
      assert ForIp(ip)(acs[k]);
      forall i | 0 <= i < |acs| && i != k ensures acs[i] in next {
        assert next[if i < k then i else i - 1] == acs[i];
      }
    } else if k == |acs| && policy == Deny {
      assert next[|acs|] == AC(ip, Deny);
      assert forall i :: 0 <= i < |acs| ==> next[i] == acs[i];
    }
  }

  // ---- The two threads ----

  datatype Camera = Camera(id: string, ip: string, switchId: string, stat: Stat)
  datatype Switch = Switch(id: string, acs: seq<AC>)
  datatype World = World(cameras: seq<Camera>, controls: seq<Control>, switches: seq<Switch>)

  /** The control the status handler issues when a camera moves from one status to another. */
  function Issued(was: Stat, now: Stat): Option<Policy> {
    match now
    case Normal => if was == Abnormal || was == Unused then Some(Allow) else None
    case Abnormal => if was == Normal || was == Unused then Some(Deny) else None
    case Unregistered => if was == Normal then Some(Allow) else if was == Abnormal then Some(Deny) else None
    case Unused => None
  }

  function WithId(id: string): Camera -> bool {
    (c: Camera) => c.id == id
  }

  function Named(name: string): string -> bool {
    (id: string) => id == name
  }

  function Ids(switches: seq<Switch>): (ids: seq<string>)
    ensures |ids| == |switches|
  {
    seq(|switches|, i requires 0 <= i < |switches| => switches[i].id)
  }

  /** The switch a camera or a control refers to; an empty switch ID means the first one. */
  function SwitchIndex(ids: seq<string>, id: string): (k: nat)
    ensures k <= |ids|
  {
    if id != "" then FirstWhere(ids, Named(id)) else 0
  }

  datatype Step = Status(id: string, stat: Stat) | Consume(deviceOk: bool)

  /** A status message handled by the CatchB thread, or one queued control by the detector's. */
  ghost function Apply(w: World, step: Step): World {
    match step
    case Status(id, stat) =>
      var i := FirstWhere(w.cameras, WithId(id));
      if i == |w.cameras| then w
      else
        var c := w.cameras[i];
        var policy := Issued(c.stat, stat);
        w.(cameras := w.cameras[i := c.(stat := stat)],
           controls := if policy.Some? then w.controls + [Control(c.switchId, c.ip, policy.value)] else w.controls)
    case Consume(deviceOk) =>
      if w.controls == [] then w
      else
        var m := w.controls[0];
        var k := SwitchIndex(Ids(w.switches), m.switchId);
        w.(controls := w.controls[1..], switches := SwitchControlled(w.switches, k, m, deviceOk))
  }

  ghost function SwitchControlled(switches: seq<Switch>, k: nat, m: Control, deviceOk: bool): (r: seq<Switch>)
    requires k <= |switches|
    ensures |r| == |switches| && Ids(r) == Ids(switches)
  {
    if k == |switches| then switches
    else switches[k := switches[k].(acs := Controlled(switches[k].acs, m.ip, m.policy, deviceOk))]
  }

  ghost function Run(w: World, steps: seq<Step>): World
    decreases |steps|
  {
    if steps == [] then w else Run(Apply(w, steps[0]), steps[1..])
  }

  /** Applying every pending control in order, each carried out by its device. */
  ghost function Drained(w: World): World
    decreases |w.controls|
  {
    if w.controls == [] then w else Drained(Apply(w, Consume(true)))
  }

  // ---- Safety ----

  ghost predicate AllOneEntryEach(w: World) {
    forall k :: 0 <= k < |w.switches| ==> OneEntryEach(w.switches[k].acs)
  }

  lemma StepKeepsOneEntryEach(w: World, step: Step)
    requires AllOneEntryEach(w)
    ensures AllOneEntryEach(Apply(w, step))
  {
  }

  /** Never two entries for one address, over every interleaving, whatever the devices do. */
  lemma {:induction false} RunKeepsOneEntryEach(w: World, steps: seq<Step>)
    requires AllOneEntryEach(w)
    ensures AllOneEntryEach(Run(w, steps))
    decreases |steps|
  {
    if steps == [] {
    } else {
      StepKeepsOneEntryEach(w, steps[0]);
      RunKeepsOneEntryEach(Apply(w, steps[0]), steps[1..]);
    }
  }

  // ---- Every entry denies ----

  ghost predicate OnlyDenials(w: World) {
    forall k, i :: 0 <= k < |w.switches| && 0 <= i < |w.switches[k].acs| ==> w.switches[k].acs[i].policy == Deny
  }

  lemma StepKeepsOnlyDenials(w: World, step: Step)
    requires OnlyDenials(w)
    ensures OnlyDenials(Apply(w, step))
  {
  }

  /** Whatever is asked for and whatever the devices do, no entry ever records an allowance. */
  lemma {:induction false} RunKeepsOnlyDenials(w: World, steps: seq<Step>)
    requires OnlyDenials(w)
    ensures OnlyDenials(Run(w, steps)) && OnlyDenials(Drained(Run(w, steps)))
    decreases |steps|
  {
    if steps == [] {
      DrainKeepsOnlyDenials(w);
    } else {
      StepKeepsOnlyDenials(w, steps[0]);
      RunKeepsOnlyDenials(Apply(w, steps[0]), steps[1..]);
    }
  }

  lemma {:induction false} DrainKeepsOnlyDenials(w: World)
    requires OnlyDenials(w)
    ensures OnlyDenials(Drained(w))
    decreases |w.controls|
  {
    if w.controls == [] {
    } else {
      StepKeepsOnlyDenials(w, Consume(true));
      DrainKeepsOnlyDenials(Apply(w, Consume(true)));
    }
  }

  // ---- Which switch and which camera a step concerns ----

  lemma FirstNamed(ids: seq<string>, id: string, k: nat)
    requires k < |ids|
    ensures SwitchIndex(ids, id) == k <==>
            if id == "" then k == 0 else ids[k] == id && forall j :: 0 <= j < k ==> ids[j] != id
  {
    if id != "" && ids[k] == id && forall j :: 0 <= j < k ==> ids[j] != id {
      FirstWhereIs(ids, Named(id), k);
    }
  }

  /** A control reaches the first switch that has its ID, or the first of all for an empty ID: every
      other switch stays as it is, and on the one reached only the control's address changes. */
  lemma ControlReaches(w: World, deviceOk: bool, k: nat, ip: string)
    requires w.controls != [] && k < |w.switches| && OneEntryEach(w.switches[k].acs)
    ensures var m, was := w.controls[0], w.switches[k];
            var now := Apply(w, Consume(deviceOk)).switches[k];
            var meant := if m.switchId == "" then k == 0
                         else was.id == m.switchId && forall j :: 0 <= j < k ==> w.switches[j].id != m.switchId;
            && now.id == was.id
            && (!meant ==> now == was)
            && (meant ==> (Listed(now.acs, ip) <==>
                             if SameIgnoringCase(ip, m.ip) then m.policy == Deny || (Listed(was.acs, ip) && !deviceOk)
                             else Listed(was.acs, ip)))
  {
    var m, was := w.controls[0], w.switches[k];
    assert forall j :: 0 <= j < |w.switches| ==> Ids(w.switches)[j] == w.switches[j].id;
    FirstNamed(Ids(w.switches), m.switchId, k);
    ControlledListed(was.acs, m.ip, m.policy, deviceOk, ip);
    ListedIff(was.acs, ip);
    ListedIff(was.acs, m.ip);
  }

  /** A status message concerns the first camera that has its ID: every other camera stays as it is,
      and any control it asks for is about that camera's address on that camera's switch. */
  lemma StatusReaches(w: World, id: string, stat: Stat, c: nat)
    requires c < |w.cameras|
    ensures var next, was := Apply(w, Status(id, stat)), w.cameras[c];
            var meant := was.id == id && forall d :: 0 <= d < c ==> w.cameras[d].id != id;
            && next.switches == w.switches
            && next.cameras[c] == (if meant then was.(stat := stat) else was)
            && (meant && next.controls != w.controls ==>
                  exists policy :: next.controls == w.controls + [Control(was.switchId, was.ip, policy)])
  {
    if w.cameras[c].id == id && forall d :: 0 <= d < c ==> w.cameras[d].id != id {
      FirstWhereIs(w.cameras, WithId(id), c);
    }
  }

  // ---- Agreement of one camera's status with its access-control entry ----

  /** Camera c has a switch, and no other camera on that switch shares its address. */
  ghost predicate Placed(w: World, c: nat) {
    && c < |w.cameras| && Home(w, c) < |w.switches|
    && forall d :: 0 <= d < |w.cameras| && d != c ==>
         !(Home(w, d) == Home(w, c) && SameIgnoringCase(w.cameras[d].ip, w.cameras[c].ip))
  }

  ghost function Home(w: World, c: nat): (k: nat)
    requires c < |w.cameras|
    ensures k <= |w.switches|
  {
    SwitchIndex(Ids(w.switches), w.cameras[c].switchId)
  }

  ghost predicate Blocked(w: World, c: nat)
    requires c < |w.cameras| && Home(w, c) < |w.switches|
  {
    Listed(w.switches[Home(w, c)].acs, w.cameras[c].ip)
  }

  ghost predicate Targets(m: Control, ids: seq<string>, k: nat, ip: string) {
    SwitchIndex(ids, m.switchId) == k && SameIgnoringCase(m.ip, ip)
  }

  /** Whether the address ends up listed once the pending controls are applied. */
  ghost function Settle(controls: seq<Control>, ids: seq<string>, k: nat, ip: string, listed: bool): bool {
    if controls == [] then listed
    else Settle(controls[1..], ids, k, ip,
                if Targets(controls[0], ids, k, ip) then controls[0].policy == Deny else listed)
  }

  ghost predicate WillBeBlocked(w: World, c: nat)
    requires c < |w.cameras| && Home(w, c) < |w.switches|
  {
    Settle(w.controls, Ids(w.switches), Home(w, c), w.cameras[c].ip, Blocked(w, c))
  }

  /** The stored status already says which verdict was handled last. */
  ghost predicate Remembered(w: World, c: nat, denied: bool)
    requires c < |w.cameras|
  {
    && (w.cameras[c].stat == Normal ==> !denied)
    && (w.cameras[c].stat == Abnormal ==> denied)
  }

  /** denied is whether the last NORMAL or ABNORMAL status handled for camera c was ABNORMAL. */
  ghost predicate Agrees(w: World, c: nat, denied: bool) {
    Placed(w, c) && Remembered(w, c, denied) && (WillBeBlocked(w, c) <==> denied)
  }

  ghost function Verdict(w: World, c: nat, step: Step, denied: bool): bool {
    if step.Status? && FirstWhere(w.cameras, WithId(step.id)) == c && step.stat in {Normal, Abnormal}
    then step.stat == Abnormal
    else denied
  }

  /** The one transition that issues no control although the verdict changes: leaving
      UNREGISTERED for the opposite of the last verdict. And an allowance that the device
      refuses leaves the entry behind. */
  ghost predicate Followed(w: World, c: nat, step: Step, denied: bool)
    requires Placed(w, c)
  {
    match step
    case Status(id, stat) =>
      (FirstWhere(w.cameras, WithId(id)) == c && w.cameras[c].stat == Unregistered && stat in {Normal, Abnormal})
      ==> (stat == Abnormal) == denied
    case Consume(deviceOk) =>
      (w.controls != [] && Targets(w.controls[0], Ids(w.switches), Home(w, c), w.cameras[c].ip)
       && w.controls[0].policy == Allow) ==> deviceOk
  }

  lemma {:induction false} SettleAppend(cs: seq<Control>, m: Control, ids: seq<string>,
                                         k: nat, ip: string, listed: bool)
    ensures Settle(cs + [m], ids, k, ip, listed)
         == if Targets(m, ids, k, ip) then m.policy == Deny else Settle(cs, ids, k, ip, listed)
  {
    if cs == [] {
      assert (cs + [m])[1..] == [];
    } else {
      assert (cs + [m])[1..] == cs[1..] + [m];
      SettleAppend(cs[1..], m, ids, k, ip,
                   if Targets(cs[0], ids, k, ip) then cs[0].policy == Deny else listed);
    }
  }

  /** A status step keeps the agreement exactly when the control follows the verdict. */
  lemma StatusAgreesIff(w: World, c: nat, id: string, stat: Stat, denied: bool)
    requires Agrees(w, c, denied)
    ensures var step := Status(id, stat);
            Agrees(Apply(w, step), c, Verdict(w, c, step, denied)) <==> Followed(w, c, step, denied)
  {
    var step := Status(id, stat);
    var i := FirstWhere(w.cameras, WithId(id));
    if i < |w.cameras| {
      var cam, w' := w.cameras[i], Apply(w, step);
      var policy := Issued(cam.stat, stat);
      StatusKeepsPlaced(w, c, step);
      if policy.Some? {
        SettleAppend(w.controls, Control(cam.switchId, cam.ip, policy.value), Ids(w.switches), Home(w, c),
                     w.cameras[c].ip, Blocked(w, c));
      }
    }
  }

  lemma StatusKeepsPlaced(w: World, c: nat, step: Step)
    requires Placed(w, c) && step.Status?
    ensures var w' := Apply(w, step);
            && Placed(w', c) && Home(w', c) == Home(w, c) && w'.cameras[c].ip == w.cameras[c].ip
            && Blocked(w', c) == Blocked(w, c)
  {
  }

  lemma ConsumeKeepsPlaced(w: World, c: nat, step: Step)
    requires Placed(w, c) && step.Consume?
    ensures var w' := Apply(w, step);
            && Placed(w', c) && Home(w', c) == Home(w, c) && w'.cameras == w.cameras
  {
  }

  /** Consuming a control that its device carries out changes nothing about where camera c's entry
      will end up. */
  lemma ConsumeKeepsOutcome(w: World, c: nat, deviceOk: bool, denied: bool)
    requires Placed(w, c) && AllOneEntryEach(w) && Followed(w, c, Consume(deviceOk), denied)
    ensures var w' := Apply(w, Consume(deviceOk));
            Placed(w', c) && (WillBeBlocked(w', c) <==> WillBeBlocked(w, c))
  {
    ConsumeKeepsPlaced(w, c, Consume(deviceOk));
    if w.controls != [] {
      var m, k := w.controls[0], SwitchIndex(Ids(w.switches), w.controls[0].switchId);
      if k < |w.switches| {
        ControlledListed(w.switches[k].acs, m.ip, m.policy, deviceOk, w.cameras[c].ip);
      }
    }
  }

  /** Every step that follows the verdict keeps the agreement. */
  lemma StepKeepsAgreement(w: World, c: nat, step: Step, denied: bool)
    requires Agrees(w, c, denied) && AllOneEntryEach(w) && Followed(w, c, step, denied)
    ensures Agrees(Apply(w, step), c, Verdict(w, c, step, denied))
  {
    match step
    case Status(id, stat) =>
      StatusAgreesIff(w, c, id, stat, denied);
    case Consume(deviceOk) =>
      ConsumeKeepsOutcome(w, c, deviceOk, denied);
      ConsumeKeepsPlaced(w, c, step);
  }

  ghost predicate AllFollowed(w: World, c: nat, steps: seq<Step>, denied: bool)
    requires Placed(w, c)
    decreases |steps|
  {
    steps != [] ==>
      && Followed(w, c, steps[0], denied)
      && Placed(Apply(w, steps[0]), c)
      && AllFollowed(Apply(w, steps[0]), c, steps[1..], Verdict(w, c, steps[0], denied))
  }

  /** The last verdict handled for camera c over a run. */
  ghost function LastVerdict(w: World, c: nat, steps: seq<Step>, denied: bool): bool
    decreases |steps|
  {
    if steps == [] then denied
    else LastVerdict(Apply(w, steps[0]), c, steps[1..], Verdict(w, c, steps[0], denied))
  }

  lemma {:induction false} RunKeepsAgreement(w: World, c: nat, steps: seq<Step>, denied: bool)
    requires Agrees(w, c, denied) && AllOneEntryEach(w) && AllFollowed(w, c, steps, denied)
    ensures Agrees(Run(w, steps), c, LastVerdict(w, c, steps, denied)) && AllOneEntryEach(Run(w, steps))
    decreases |steps|
  {
    if steps == [] {
    } else {
      StepKeepsAgreement(w, c, steps[0], denied);
      StepKeepsOneEntryEach(w, steps[0]);
      RunKeepsAgreement(Apply(w, steps[0]), c, steps[1..], Verdict(w, c, steps[0], denied));
    }
  }

  /** Settling is what draining the queue does to the entry. */
  lemma {:induction false} DrainSettles(w: World, c: nat)
    requires Placed(w, c) && AllOneEntryEach(w)
    ensures Placed(Drained(w), c) && AllOneEntryEach(Drained(w)) && (Blocked(Drained(w), c) <==> WillBeBlocked(w, c))
    decreases |w.controls|
  {
    if w.controls == [] {
    } else {
      ConsumeKeepsOutcome(w, c, true, false);
      StepKeepsOneEntryEach(w, Consume(true));
      DrainSettles(Apply(w, Consume(true)), c);
    }
  }

  /** No message in the run unregisters a camera, and every allowance is carried out. */
  ghost predicate Plain(step: Step) {
    match step
    case Status(_, stat) => stat != Unregistered
    case Consume(deviceOk) => deviceOk
  }

  ghost predicate PlainRun(steps: seq<Step>) {
    forall i :: 0 <= i < |steps| ==> Plain(steps[i])
  }

  ghost predicate NoneUnregistered(w: World) {
    forall d :: 0 <= d < |w.cameras| ==> w.cameras[d].stat != Unregistered
  }

  lemma PlainStep(w: World, c: nat, step: Step, denied: bool)
    requires Placed(w, c) && NoneUnregistered(w) && Plain(step)
    ensures Followed(w, c, step, denied) && Placed(Apply(w, step), c) && NoneUnregistered(Apply(w, step))
  {
  }

  lemma {:induction false} PlainRunFollows(w: World, c: nat, steps: seq<Step>, denied: bool)
    requires Placed(w, c) && NoneUnregistered(w) && PlainRun(steps)
    ensures AllFollowed(w, c, steps, denied)
    decreases |steps|
  {
    if steps == [] {
    } else {
      PlainStep(w, c, steps[0], denied);
      assert PlainRun(steps[1..]);
      PlainRunFollows(Apply(w, steps[0]), c, steps[1..], Verdict(w, c, steps[0], denied));
    }
  }

  /** The main result: cameras that were loaded as UNUSED and are never unregistered. At any point
      of any interleaving, once the pending controls are applied, a camera's address has an entry
      exactly if the last NORMAL or ABNORMAL status handled was ABNORMAL (or, before the first one,
      if it had one to begin with), and no address has two. */
  lemma EntryFollowsStatus(w: World, c: nat, steps: seq<Step>)
    requires w.controls == [] && AllOneEntryEach(w) && Placed(w, c)
    requires forall d :: 0 <= d < |w.cameras| ==> w.cameras[d].stat == Unused
    requires PlainRun(steps)
    ensures var end := Drained(Run(w, steps));
            && Placed(end, c) && AllOneEntryEach(end)
            && (Blocked(end, c) <==> LastVerdict(w, c, steps, Blocked(w, c)))
  {
    PlainRunFollows(w, c, steps, Blocked(w, c));
    RunKeepsAgreement(w, c, steps, Blocked(w, c));
    DrainSettles(Run(w, steps), c);
  }

  // ---- The same, said of names ----

  /** Whether the last NORMAL or ABNORMAL status said of the camera of that ID was ABNORMAL. */
  ghost function LastSaid(steps: seq<Step>, id: string, denied: bool): bool {
    if steps == [] then denied
    else
      var step := steps[0];
      LastSaid(steps[1..], id,
               if step.Status? && step.id == id && step.stat in {Normal, Abnormal} then step.stat == Abnormal
               else denied)
  }

  ghost predicate DistinctIds(w: World) {
    && (forall i, j :: 0 <= i < j < |w.cameras| ==> w.cameras[i].id != w.cameras[j].id)
    && (forall i, j :: 0 <= i < j < |w.switches| ==> w.switches[i].id != w.switches[j].id)
  }

  /** Only status and access-control lists ever change. */
  ghost predicate SamePlaces(w: World, w': World) {
    && |w'.cameras| == |w.cameras| && Ids(w'.switches) == Ids(w.switches)
    && forall d :: 0 <= d < |w.cameras| ==> w'.cameras[d] == w.cameras[d].(stat := w'.cameras[d].stat)
  }

  lemma StepKeepsPlaces(w: World, step: Step)
    ensures SamePlaces(w, Apply(w, step))
  {
  }

  lemma {:induction false} RunKeepsPlaces(w: World, steps: seq<Step>)
    ensures SamePlaces(w, Run(w, steps))
    decreases |steps|
  {
    if steps == [] {
    } else {
      StepKeepsPlaces(w, steps[0]);
      RunKeepsPlaces(Apply(w, steps[0]), steps[1..]);
    }
  }

  lemma {:induction false} DrainKeepsPlaces(w: World)
    ensures SamePlaces(w, Drained(w))
    decreases |w.controls|
  {
    if w.controls == [] {
    } else {
      StepKeepsPlaces(w, Consume(true));
      DrainKeepsPlaces(Apply(w, Consume(true)));
    }
  }

  lemma SameIds(switches: seq<Switch>, switches': seq<Switch>, k: nat)
    requires Ids(switches) == Ids(switches') && k < |switches|
    ensures |switches'| == |switches| && switches'[k].id == switches[k].id
  {
    assert Ids(switches)[k] == Ids(switches')[k];
  }

  lemma {:induction false} LastVerdictIsSaid(w: World, c: nat, steps: seq<Step>, denied: bool)
    requires c < |w.cameras| && forall i, j :: 0 <= i < j < |w.cameras| ==> w.cameras[i].id != w.cameras[j].id
    ensures LastVerdict(w, c, steps, denied) == LastSaid(steps, w.cameras[c].id, denied)
    decreases |steps|
  {
    if steps == [] {
    } else {
      var step := steps[0];
      StepKeepsPlaces(w, step);
      if step.Status? && step.id == w.cameras[c].id {
        FirstWhereIs(w.cameras, WithId(step.id), c);
      }
      LastVerdictIsSaid(Apply(w, step), c, steps[1..], Verdict(w, c, step, denied));
    }
  }

  /** Camera c is on the switch named by its ID, and no camera that may be there has its address. */
  ghost predicate On(w: World, c: nat, k: nat) {
    && c < |w.cameras| && k < |w.switches| && w.switches[k].id == w.cameras[c].switchId != ""
    && forall d :: 0 <= d < |w.cameras| && d != c && SameIgnoringCase(w.cameras[d].ip, w.cameras[c].ip) ==>
         w.cameras[d].switchId !in {w.cameras[c].switchId, ""}
  }

  lemma OnIsPlaced(w: World, c: nat, k: nat)
    requires DistinctIds(w) && On(w, c, k)
    ensures Placed(w, c) && Home(w, c) == k
  {
    FirstNamed(Ids(w.switches), w.cameras[c].switchId, k);
    forall d | 0 <= d < |w.cameras| && Home(w, d) == k
      ensures w.cameras[d].switchId in {w.cameras[c].switchId, ""}
    {
      FirstNamed(Ids(w.switches), w.cameras[d].switchId, k);
    }
  }

  /** The main result for cameras and switches with distinct IDs: the camera's address is listed on
      the switch of that ID exactly if the last NORMAL or ABNORMAL status said of the camera's ID was
      ABNORMAL, and every entry on every switch denies. */
  lemma DenialFollowsStatus(w: World, c: nat, k: nat, steps: seq<Step>)
    requires w.controls == [] && AllOneEntryEach(w) && OnlyDenials(w) && DistinctIds(w) && On(w, c, k)
    requires forall d :: 0 <= d < |w.cameras| ==> w.cameras[d].stat == Unused
    requires PlainRun(steps)
    ensures var end, ip := Drained(Run(w, steps)), w.cameras[c].ip;
            && |end.switches| == |w.switches| && end.switches[k].id == w.cameras[c].switchId && OnlyDenials(end)
            && (Listed(end.switches[k].acs, ip) <==>
                  LastSaid(steps, w.cameras[c].id, Listed(w.switches[k].acs, ip)))
  {
    var mid := Run(w, steps);
    var end := Drained(mid);
    OnIsPlaced(w, c, k);
    EntryFollowsStatus(w, c, steps);
    LastVerdictIsSaid(w, c, steps, Blocked(w, c));
    RunKeepsPlaces(w, steps);
    DrainKeepsPlaces(mid);
    SameIds(w.switches, end.switches, k);
    RunKeepsOnlyDenials(w, steps);
  }

  /** A camera that is unregistered has its last verdict asked for again, so an allowance that the
      device refused is made up for. */
  lemma UnregisteringRepeats(w: World, id: string, c: nat)
    requires w.controls == [] && AllOneEntryEach(w) && Placed(w, c) && FirstWhere(w.cameras, WithId(id)) == c
    ensures var w' := Apply(Apply(w, Status(id, Unregistered)), Consume(true));
            && Placed(w', c)
            && (w.cameras[c].stat == Normal ==> !Blocked(w', c))
            && (w.cameras[c].stat == Abnormal ==> Blocked(w', c))
            && (w.cameras[c].stat in {Unused, Unregistered} ==> (Blocked(w', c) <==> Blocked(w, c)))
  {
    var step, stat := Status(id, Unregistered), w.cameras[c].stat;
    var mid := Apply(w, step);
    StatusKeepsPlaced(w, c, step);
    ConsumeKeepsPlaced(mid, c, Consume(true));
    if stat in {Normal, Abnormal} {
      var m, acs := mid.controls[0], w.switches[Home(w, c)].acs;
      assert m == Control(w.cameras[c].switchId, w.cameras[c].ip, if stat == Normal then Allow else Deny);
      ControlledListed(acs, m.ip, m.policy, true, m.ip);
    }
  }

  /** Leaving UNREGISTERED for the opposite verdict loses the control: an address stays blocked
      although the camera is NORMAL again. */
  lemma UnregisteredLosesControl() returns (w: World, steps: seq<Step>)
    ensures w.controls == [] && Placed(w, 0) && w.cameras[0].stat == Unused && !Blocked(w, 0)
    ensures !LastVerdict(w, 0, steps, false) && Placed(Run(w, steps), 0) && WillBeBlocked(Run(w, steps), 0)
  {
    w := World([Camera("cam", "10.0.0.1", "sw", Unused)], [], [Switch("sw", [])]);
    steps := [Status("cam", Abnormal), Status("cam", Unregistered), Status("cam", Normal)];
    OneCameraAgrees(w);
    var w1 := Apply(w, steps[0]);
    StatusAgreesIff(w, 0, "cam", Abnormal, false);
    assert w1.cameras == [Camera("cam", "10.0.0.1", "sw", Abnormal)];
    var w2 := Apply(w1, steps[1]);
    assert w2.cameras == [Camera("cam", "10.0.0.1", "sw", Unregistered)];
    StatusAgreesIff(w1, 0, "cam", Unregistered, true);
    ControlLost(w2);
    ThreeSteps(w, 0, steps[0], steps[1], steps[2], false);
  }

  lemma OneCameraAgrees(w: World)
    requires |w.cameras| == 1 && w.cameras[0].stat == Unused && w.controls == []
    requires |w.switches| == 1 && w.switches[0] == Switch(w.cameras[0].switchId, [])
    ensures Agrees(w, 0, false) && !Blocked(w, 0)
  {
    FirstNamed(Ids(w.switches), w.cameras[0].switchId, 0);
  }

  lemma ThreeSteps(w: World, c: nat, x: Step, y: Step, z: Step, denied: bool)
    ensures Run(w, [x, y, z]) == Apply(Apply(Apply(w, x), y), z)
    ensures var w1 := Apply(w, x); var w2 := Apply(w1, y); var d := Verdict(w1, c, y, Verdict(w, c, x, denied));
            LastVerdict(w, c, [x, y, z], denied) == Verdict(w2, c, z, d)
  {
    var w1 := Apply(w, x);
    var w2 := Apply(w1, y);
    var d1 := Verdict(w, c, x, denied);
    var d2 := Verdict(w1, c, y, d1);
    assert [x, y, z][1..] == [y, z] && [y, z][1..] == [z] && [z][1..] == [];
    assert Run(w2, [z]) == Run(Apply(w2, z), []) == Apply(w2, z);
    assert Run(w, [x, y, z]) == Run(w1, [y, z]) == Run(w2, [z]);
    assert LastVerdict(w2, c, [z], d2) == LastVerdict(Apply(w2, z), c, [], Verdict(w2, c, z, d2));
    assert LastVerdict(w, c, [x, y, z], denied) == LastVerdict(w1, c, [y, z], d1) == LastVerdict(w2, c, [z], d2);
  }

  /** The last step of that run. */
  lemma ControlLost(w: World)
    requires Placed(w, 0) && w.cameras[0].id == "cam" && w.cameras[0].stat == Unregistered && Agrees(w, 0, true)
    ensures var end := Apply(w, Status("cam", Normal)); Placed(end, 0) && WillBeBlocked(end, 0)
  {
  }
}
