/** The objects behind SwitchControl: cameras updated in place, each switch's access-control list
    on a linked list, and the detector's message queue between the two threads. Each handler is one
    step of the abstract world. */
module ControlThreads {
  import opened Sequences
  import opened Names
  import opened LinkedList
  import opened MessageQueue
  import opened SwitchControl

  class CctvObject {
    const id: string
    const ip: string
    const switchId: string
    var stat: Stat

    constructor (id: string, ip: string, switchId: string, stat: Stat)
      ensures this.id == id && this.ip == ip && this.switchId == switchId && this.stat == stat
    {
      this.id, this.ip, this.switchId, this.stat := id, ip, switchId, stat;
    }

    ghost function Abs(): Camera
      reads this
    {
      Camera(id, ip, switchId, stat)
    }
  }

  /** The seeker of a switch's list. */
  predicate HasIp(ac: AC, ip: string) {
    SameIgnoringCase(ac.ip, ip)
  }

  lemma SoughtForIp(acs: seq<AC>, ip: string)
    ensures FirstWhere(acs, Sought(HasIp, ip)) == FirstWhere(acs, ForIp(ip))
  {
    forall ac: AC ensures Sought(HasIp, ip)(ac) <==> ForIp(ip)(ac) {
      assert HasIp(ac, ip) <==> SameIgnoringCase(ac.ip, ip);
    }
    SameFirst(acs, Sought(HasIp, ip), ForIp(ip));
  }

  class SwitchObject {
    const id: string
    const acs: List<AC, string>
    /** The commands given to the device, in order. */
    var sent: seq<AC>

    ghost predicate Valid()
      reads acs, acs.ring
    {
      acs.Valid() && !acs.locked && acs.seeker == Some(HasIp)
    }

    ghost function Entries(): seq<AC>
      requires Valid()
      reads acs, acs.ring
    {
      acs.Contents()
    }

    constructor (id: string)
      ensures this.id == id && Valid() && Entries() == [] && sent == [] && fresh(acs) && fresh(acs.Nodes())
    {
      this.id, sent := id, [];
      acs := new List<AC, string>();
      new;
      acs.seeker := Some(HasIp);
    }

    method GetAC(ip: string) returns (r: Option<AC>)
      requires Valid()
      modifies acs`locked
      ensures Valid() && Entries() == old(Entries())
      ensures r == FirstOf(Entries(), ForIp(ip))
      ensures r.Some? <==> Listed(Entries(), ip)
    {
      r := acs.Get(ip);
      SoughtForIp(Entries(), ip);
    }

    /** The entry is recorded whether or not the device carries out the command, and the caller is
        told that all went well. */
    method AddAC(ip: string, policy: Policy, deviceOk: bool) returns (ok: bool)
      requires Valid()
      modifies this`sent, acs, acs.Nodes()
      ensures Valid() && fresh(acs.Nodes() - old(acs.Nodes()))
      ensures ok && Entries() == old(Entries()) + [AC(ip, policy)]
      ensures sent == old(sent) + [AC(ip, policy)]
    {
      var r := acs.Append(AC(ip, policy));
      sent := sent + [AC(ip, policy)];
      ok := r == Status.Ok;
    }

    /** The entry is removed only once the device has carried out the command. */
    method DeleteAC(ip: string, deviceOk: bool) returns (ok: bool)
      requires Valid()
      modifies this`sent, acs, acs.Nodes()
      ensures Valid() && acs.Nodes() <= old(acs.Nodes())
      ensures ok <==> Listed(old(Entries()), ip) && deviceOk
      ensures Entries() == Controlled(old(Entries()), ip, Allow, deviceOk)
      ensures sent == old(sent) + if Listed(old(Entries()), ip) then [AC(ip, Allow)] else []
    {
      ghost var before := Entries();
      FirstIsFirst(before, ForIp(ip));
      var ac := GetAC(ip);
      if ac.None? {
        return false;
      }
      sent := sent + [AC(ip, Allow)];
      if !deviceOk {
        return false;
      }
      var r := acs.Remove(ac.value);
      ok := r == Status.Ok;
    }

    /** The detector's handler, once it has found the switch. */
    method OnSetControl(m: Control, deviceOk: bool)
      requires Valid()
      modifies this`sent, acs, acs.Nodes()
      ensures Valid() && fresh(acs.Nodes() - old(acs.Nodes()))
      ensures Entries() == Controlled(old(Entries()), m.ip, m.policy, deviceOk)
      ensures m.policy == Deny && !Listed(old(Entries()), m.ip) ==>
                Entries() == old(Entries()) + [AC(m.ip, Deny)] && sent == old(sent) + [AC(m.ip, Deny)]
      ensures m.policy == Allow && Listed(old(Entries()), m.ip) ==>
                multiset(Entries()) <= multiset(old(Entries())) && sent == old(sent) + [AC(m.ip, Allow)]
      ensures (m.policy == Deny) == Listed(old(Entries()), m.ip) ==>
                Entries() == old(Entries()) && sent == old(sent)
    {
      ControlledEntries(Entries(), m.ip, m.policy, deviceOk);
      var ac := GetAC(m.ip);
      if ac.None? {
        if m.policy == Deny {
          var ok := AddAC(m.ip, m.policy, deviceOk);
        }
      } else if m.policy == Allow {
        var ok := DeleteAC(m.ip, deviceOk);
      }
    }
  }

  class System {
    const cameras: seq<CctvObject>
    const switches: seq<SwitchObject>
    /** The detector's message queue. */
    const controls: MsgQueue<Control>

    ghost function Lists(): set<object> {
      set k | 0 <= k < |switches| :: switches[k].acs as object
    }

    ghost function SwitchNodes(): set<object>
      reads Lists()
    {
      set k, i | 0 <= k < |switches| && 0 <= i < |switches[k].acs.ring| :: switches[k].acs.ring[i] as object
    }

    /** No two switches share a list or an entry. */
    ghost predicate Apart()
      reads Lists()
    {
      forall i, j :: 0 <= i < j < |switches| ==>
        switches[i].acs != switches[j].acs && switches[i].acs.Nodes() !! switches[j].acs.Nodes()
    }

    ghost predicate SwitchesValid()
      reads Lists(), SwitchNodes()
    {
      Distinct(switches) && Apart() && forall k :: 0 <= k < |switches| ==> switches[k].Valid()
    }

    ghost predicate Valid()
      reads Lists(), SwitchNodes(), controls, controls.queue, controls.queue.list, controls.queue.list.ring
    {
      Distinct(cameras) && SwitchesValid() && controls.queue.Valid() && controls.InStep()
    }

    ghost function Cameras(): seq<Camera>
      reads cameras
    {
      seq(|cameras|, i requires 0 <= i < |cameras| reads cameras => cameras[i].Abs())
    }

    ghost function Switches(): (r: seq<Switch>)
      requires SwitchesValid()
      reads Lists(), SwitchNodes()
      ensures |r| == |switches|
      ensures forall k :: 0 <= k < |r| ==> r[k] == Switch(switches[k].id, switches[k].Entries())
    {
      seq(|switches|, k requires 0 <= k < |switches| && switches[k].Valid() reads Lists(), SwitchNodes() =>
        Switch(switches[k].id, switches[k].Entries()))
    }

    ghost function Abs(): World
      requires Valid()
      reads Lists(), SwitchNodes(), controls, controls.queue, controls.queue.list, controls.queue.list.ring, cameras
    {
      World(Cameras(), controls.queue.Contents(), Switches())
    }

    constructor (cameras: seq<CctvObject>, switches: seq<SwitchObject>)
      requires Distinct(cameras) && Distinct(switches)
      requires forall k :: 0 <= k < |switches| ==> switches[k].Valid()
      requires forall i, j :: 0 <= i < j < |switches| ==>
                 switches[i].acs != switches[j].acs && switches[i].acs.Nodes() !! switches[j].acs.Nodes()
      ensures Valid() && this.cameras == cameras && this.switches == switches
      ensures Abs().controls == []
    {
      this.cameras, this.switches := cameras, switches;
      controls := new MsgQueue<Control>();
    }

    /** The producer's end of the detector's queue. */
    method SetControl(switchId: string, ip: string, allow: bool)
      requires Valid()
      modifies controls, controls.queue.list, controls.queue.list.Nodes()
      ensures Valid() && Switches() == old(Switches()) && Cameras() == old(Cameras())
      ensures controls.queue.Contents() ==
              old(controls.queue.Contents()) + [Control(switchId, ip, if allow then Allow else Deny)]
    {
      controls.Push(Control(switchId, ip, if allow then Allow else Deny));
      assert forall k :: 0 <= k < |switches| ==> switches[k].acs.ring == old(switches[k].acs.ring);
      assert SwitchesValid();
    }

    /** What a change of status asks of the detector. */
    method Announce(cctv: CctvObject, stat: Stat)
      requires Valid()
      modifies controls, controls.queue.list, controls.queue.list.Nodes()
      ensures Valid() && Switches() == old(Switches()) && Cameras() == old(Cameras())
      ensures var policy := Issued(old(cctv.stat), stat);
              controls.queue.Contents() == old(controls.queue.Contents())
                + if policy.Some? then [Control(cctv.switchId, cctv.ip, policy.value)] else []
    {
      match stat {
        case Normal =>
          if cctv.stat == Abnormal || cctv.stat == Unused {
            SetControl(cctv.switchId, cctv.ip, true);
          }
        case Abnormal =>
          if cctv.stat == Normal || cctv.stat == Unused {
            SetControl(cctv.switchId, cctv.ip, false);
          }
        case Unregistered =>
          if cctv.stat == Normal {
            SetControl(cctv.switchId, cctv.ip, true);
          } else if cctv.stat == Abnormal {
            SetControl(cctv.switchId, cctv.ip, false);
          }
        case Unused =>
      }
    }

    method SetStat(i: nat, stat: Stat)
      requires Valid() && i < |cameras|
      modifies cameras[i]
      ensures Valid() && Switches() == old(Switches())
      ensures controls.queue.Contents() == old(controls.queue.Contents())
      ensures Cameras() == old(Cameras())[i := old(Cameras())[i].(stat := stat)]
    {
      cameras[i].stat := stat;
    }

    method OnSetCctvStat(id: string, stat: Stat)
      requires Valid()
      modifies cameras, controls, controls.queue.list, controls.queue.list.Nodes()
      ensures Valid() && Abs() == Apply(old(Abs()), Step.Status(id, stat))
    {
      var i := FindCamera(id);
      if i < |cameras| {
        assert Cameras()[i] == cameras[i].Abs();
        Announce(cameras[i], stat);
        SetStat(i, stat);
      }
    }

    method FindCamera(id: string) returns (i: nat)
      ensures i <= |cameras| && (i < |cameras| ==> cameras[i].id == id)
      ensures forall j :: 0 <= j < i ==> cameras[j].id != id
      ensures i == FirstWhere(Cameras(), WithId(id))
    {
      i := 0;
      while i < |cameras|
        invariant i <= |cameras| && forall j :: 0 <= j < i ==> cameras[j].id != id && !WithId(id)(Cameras()[j])
      {
        if cameras[i].id == id {
          break;
        }
        i := i + 1;
      }
      FirstWhereIs(Cameras(), WithId(id), i);
    }

    ghost function SwitchIds(): (ids: seq<string>)
      ensures |ids| == |switches|
    {
      seq(|switches|, k requires 0 <= k < |switches| => switches[k].id)
    }

    method FindSwitch(id: string) returns (k: nat)
      ensures id == "" ==> k == 0
      ensures id != "" ==> k <= |switches| && (k < |switches| ==> switches[k].id == id)
      ensures id != "" ==> forall j :: 0 <= j < k ==> switches[j].id != id
      ensures k == SwitchIndex(SwitchIds(), id)
    {
      k := 0;
      if id != "" {
        while k < |switches|
          invariant k <= |switches|
          invariant forall j :: 0 <= j < k ==> switches[j].id != id && !Named(id)(SwitchIds()[j])
        {
          if switches[k].id == id {
            break;
          }
          k := k + 1;
        }
        FirstWhereIs(SwitchIds(), Named(id), k);
      }
    }

    /** Takes the next control off the queue, if there is one. */
    method NextControl() returns (r: PopResult<Control>)
      requires Valid()
      modifies controls, controls.queue.list, controls.queue.list.Nodes()
      ensures Valid() && Switches() == old(Switches()) && Cameras() == old(Cameras())
      ensures SwitchNodes() == old(SwitchNodes())
      ensures var q := old(controls.queue.Contents());
              if q == [] then r == Timeout && controls.queue.Contents() == []
              else r == Popped(q[0]) && controls.queue.Contents() == q[1..]
    {
      r := controls.TimedPop();
    }

    /** Applies a control to the k-th switch; no other switch notices. */
    method ApplyAlone(k: nat, m: Control, deviceOk: bool)
      requires Valid() && k < |switches|
      modifies switches[k], switches[k].acs, switches[k].acs.Nodes()
      ensures switches[k].Valid() && fresh(switches[k].acs.Nodes() - old(switches[k].acs.Nodes()))
      ensures switches[k].Entries() == Controlled(old(switches[k].Entries()), m.ip, m.policy, deviceOk)
      ensures forall j :: 0 <= j < |switches| && j != k ==>
                && switches[j].acs.ring == old(switches[j].acs.ring)
                && switches[j].Valid() && switches[j].Entries() == old(switches[j].Entries())
      ensures controls.queue.Valid() && controls.InStep() && controls.queue.list.ring == old(controls.queue.list.ring)
      ensures Cameras() == old(Cameras()) && controls.queue.Contents() == old(controls.queue.Contents())
    {
      switches[k].OnSetControl(m, deviceOk);
      forall j | 0 <= j < |switches| && j != k
        ensures switches[j].acs.ring == old(switches[j].acs.ring)
        ensures switches[j].Valid() && switches[j].Entries() == old(switches[j].Entries())
      {
        assert old(switches[j].acs.Nodes()) !! old(switches[k].acs.Nodes());
      }
    }

    method ApplyTo(k: nat, m: Control, deviceOk: bool)
      requires Valid() && k < |switches|
      modifies switches, Lists(), SwitchNodes()
      ensures Valid() && Cameras() == old(Cameras()) && controls.queue.Contents() == old(controls.queue.Contents())
      ensures Switches() == SwitchControlled(old(Switches()), k, m, deviceOk)
    {
      ghost var before := Switches();
      ApplyAlone(k, m, deviceOk);
      forall i, j | 0 <= i < j < |switches| ensures switches[i].acs.Nodes() !! switches[j].acs.Nodes() {
        assert i != k ==> switches[i].acs.Nodes() == old(switches[i].acs.Nodes());
        assert j != k ==> switches[j].acs.Nodes() == old(switches[j].acs.Nodes());
      }
      assert SwitchesValid();
      assert Switches() == SwitchControlled(before, k, m, deviceOk);
    }

    method OnSetControl(m: Control, deviceOk: bool) returns (ghost k: nat)
      requires Valid()
      modifies switches, Lists(), SwitchNodes()
      ensures Valid() && Cameras() == old(Cameras()) && controls.queue.Contents() == old(controls.queue.Contents())
      ensures k == SwitchIndex(SwitchIds(), m.switchId)
      ensures Switches() == SwitchControlled(old(Switches()), k, m, deviceOk)
    {
      var at := FindSwitch(m.switchId);
      k := at;
      if at < |switches| {
        ApplyTo(at, m, deviceOk);
      }
    }

    /** One turn of the detector thread. */
    method DetectorTurn(deviceOk: bool)
      requires Valid()
      modifies switches, Lists(), SwitchNodes(), controls, controls.queue.list, controls.queue.list.Nodes()
      ensures Valid() && Abs() == Apply(old(Abs()), Consume(deviceOk))
    {
      assert Ids(Switches()) == SwitchIds();
      var r := NextControl();
      if r.Popped? {
        ghost var k := OnSetControl(r.item, deviceOk);
      }
    }
  }
}
