/** Access groups and hosts (openblade/api/aml_state.py): membership is stored twice, as the
    hosts of a group and as the groups of a host. */
module AccessGroups {
  import opened Names
  import opened Wrappers

  datatype Group = Group(devices: seq<string>, hosts: seq<string>)

  datatype Host = Host(alias: Option<string>, groups: seq<string>)

  type Groups = map<string, Group>

  type Hosts = map<string, Host>

  /** One membership: `host` belongs to `group`. */
  datatype Link = Link(group: string, host: string)

  // ---- membership, read from either side ----

  predicate InGroup(groups: Groups, l: Link) {
    l.group in groups && l.host in groups[l.group].hosts
  }

  predicate OfHost(hosts: Hosts, l: Link) {
    l.host in hosts && l.group in hosts[l.host].groups
  }

  /** Both sides list the same memberships, so none dangles, and neither lists one twice. */
  ghost predicate Symmetric(groups: Groups, hosts: Hosts) {
    && (forall l :: InGroup(groups, l) <==> OfHost(hosts, l))
    && (forall g :: g in groups ==> Distinct(groups[g].hosts))
    && (forall h :: h in hosts ==> Distinct(hosts[h].groups))
  }

  function WithoutHost(g: Group, host: string): Group {
    g.(hosts := Without(g.hosts, {host}))
  }

  function WithoutGroup(h: Host, group: string): Host {
    h.(groups := Without(h.groups, {group}))
  }

  function Added(names: seq<string>, name: string): seq<string> {
    if name in names then names else names + [name]
  }

  // ---- memberships over a whole run ----

  /** The changes of membership that a run makes. */
  datatype Change =
    | Joined(link: Link)
    | Left(link: Link)
    | GroupDeleted(group: string)
    | HostDeleted(host: string)

  predicate Ends(c: Change, l: Link) {
    c == Left(l) || c == GroupDeleted(l.group) || c == HostDeleted(l.host)
  }

  /** The last change that concerns `l` was joining. */
  predicate Stands(changes: seq<Change>, l: Link) {
    changes != [] &&
    var last := changes[|changes| - 1];
    last == Joined(l) || (!Ends(last, l) && Stands(changes[..|changes| - 1], l))
  }

  lemma StandsAfter(changes: seq<Change>, last: Change, l: Link)
    ensures Stands(changes + [last], l) <==> last == Joined(l) || (!Ends(last, l) && Stands(changes, l))
  {
    assert (changes + [last])[..|changes|] == changes;
  }

  /** Change `i` joins `l`, and no later one ends it. */
  ghost predicate JoinedForGood(changes: seq<Change>, l: Link, i: int) {
    && 0 <= i < |changes| && changes[i] == Joined(l)
    && forall j :: i < j < |changes| ==> !Ends(changes[j], l)
  }

  /** A membership stands exactly when it was joined at some point and neither left nor lost
      with its group or host at any later one. */
  lemma {:induction false} StandsMeans(changes: seq<Change>, l: Link)
    ensures Stands(changes, l) <==> exists i :: JoinedForGood(changes, l, i)
  {
    hide Ends;
    if changes != [] {
      var n := |changes| - 1;
      var before := changes[..n];
      StandsMeans(before, l);
      assert changes[n] == Joined(l) ==> JoinedForGood(changes, l, n);
      forall i | 0 <= i < n
        ensures JoinedForGood(changes, l, i) <==> JoinedForGood(before, l, i) && !Ends(changes[n], l)
      {
        assert forall j :: i < j < n ==> changes[j] == before[j];
      }
    }
  }

  // ---- what each change of the two tables does ----

  lemma GroupGone(groups: Groups, hosts: Hosts, after: Hosts, name: string)
    requires Symmetric(groups, hosts) && name in groups && after.Keys == hosts.Keys
    requires forall h :: h in hosts ==>
      after[h] == if h in groups[name].hosts then WithoutGroup(hosts[h], name) else hosts[h]
    ensures Symmetric(groups - {name}, after)
    ensures forall l :: InGroup(groups - {name}, l) <==> InGroup(groups, l) && l.group != name
  {
    forall h | h in hosts
      ensures Distinct(after[h].groups)
      ensures forall g :: g in after[h].groups <==> g in hosts[h].groups && g != name
    {
      WithoutFacts(hosts[h].groups, {name});
      assert InGroup(groups, Link(name, h)) <==> OfHost(hosts, Link(name, h));
    }
    forall l
      ensures InGroup(groups - {name}, l) <==> OfHost(after, l)
    {
      assert InGroup(groups, l) <==> OfHost(hosts, l);
    }
  }

  lemma HostGone(groups: Groups, hosts: Hosts, after: Groups, wwpn: string)
    requires Symmetric(groups, hosts) && wwpn in hosts && after.Keys == groups.Keys
    requires forall g :: g in groups ==>
      after[g] == if g in hosts[wwpn].groups then WithoutHost(groups[g], wwpn) else groups[g]
    ensures Symmetric(after, hosts - {wwpn})
    ensures forall l :: InGroup(after, l) <==> InGroup(groups, l) && l.host != wwpn
  {
    forall g | g in groups
      ensures Distinct(after[g].hosts)
      ensures forall h :: h in after[g].hosts <==> h in groups[g].hosts && h != wwpn
    {
      WithoutFacts(groups[g].hosts, {wwpn});
      assert InGroup(groups, Link(g, wwpn)) <==> OfHost(hosts, Link(g, wwpn));
    }
    forall l
      ensures InGroup(after, l) <==> OfHost(hosts - {wwpn}, l)
    {
      assert InGroup(groups, l) <==> OfHost(hosts, l);
    }
  }

  lemma LinkAdded(groups: Groups, hosts: Hosts, name: string, wwpn: string, host: Host)
    requires Symmetric(groups, hosts) && name in groups
    requires host.groups == if wwpn in hosts then hosts[wwpn].groups else []
    ensures var group := groups[name].(hosts := Added(groups[name].hosts, wwpn));
      var owner := host.(groups := Added(host.groups, name));
      && Symmetric(groups[name := group], hosts[wwpn := owner])
      && forall l :: InGroup(groups[name := group], l) <==> InGroup(groups, l) || l == Link(name, wwpn)
  {
    var after := groups[name := groups[name].(hosts := Added(groups[name].hosts, wwpn))];
    var hostsAfter := hosts[wwpn := host.(groups := Added(host.groups, name))];
    forall l
      ensures InGroup(after, l) <==> OfHost(hostsAfter, l)
    {
      assert InGroup(groups, l) <==> OfHost(hosts, l);
    }
  }

  lemma LinkRemoved(groups: Groups, hosts: Hosts, name: string, wwpn: string)
    requires Symmetric(groups, hosts) && InGroup(groups, Link(name, wwpn))
    ensures wwpn in hosts
    ensures var after := groups[name := WithoutHost(groups[name], wwpn)];
      && Symmetric(after, hosts[wwpn := WithoutGroup(hosts[wwpn], name)])
      && forall l :: InGroup(after, l) <==> InGroup(groups, l) && l != Link(name, wwpn)
  {
    assert OfHost(hosts, Link(name, wwpn));
    var after := groups[name := WithoutHost(groups[name], wwpn)];
    var hostsAfter := hosts[wwpn := WithoutGroup(hosts[wwpn], name)];
    WithoutFacts(groups[name].hosts, {wwpn});
    WithoutFacts(hosts[wwpn].groups, {name});
    forall l
      ensures InGroup(after, l) <==> OfHost(hostsAfter, l)
    {
      assert InGroup(groups, l) <==> OfHost(hosts, l);
    }
  }

  class AccessControl {
    var groups: Groups
    var hosts: Hosts
    ghost var changes: seq<Change>

    /** The two sides agree, and they list what the run's changes leave standing. */
    ghost predicate Valid()
      reads this
    {
      Symmetric(groups, hosts) && forall l :: InGroup(groups, l) <==> Stands(changes, l)
    }

    ghost method Log(c: Change)
      requires Symmetric(groups, hosts)
      requires forall l :: InGroup(groups, l) <==> c == Joined(l) || (!Ends(c, l) && Stands(changes, l))
      modifies this`changes
      ensures Valid() && changes == old(changes) + [c]
    {
      forall l
        ensures InGroup(groups, l) <==> Stands(changes + [c], l)
      {
        StandsAfter(changes, c, l);
      }
      changes := changes + [c];
    }

    ghost predicate Member(l: Link)
      reads this
    {
      InGroup(groups, l)
    }

    constructor ()
      ensures Valid() && groups == map[] && hosts == map[] && changes == []
    {
      groups, hosts, changes := map[], map[], [];
    }

    method CreateAccessGroup(name: string) returns (created: bool)
      requires Valid()
      modifies this
      ensures Valid() && changes == old(changes) && created == (name !in old(groups))
      ensures hosts == old(hosts) && groups == if created then old(groups)[name := Group([], [])] else old(groups)
      ensures forall l :: Member(l) <==> old(Member(l))
    {
      if name in groups {
        return false;
      }
      assert forall l :: OfHost(hosts, l) ==> InGroup(groups, l);
      groups := groups[name := Group([], [])];
      created := true;
    }

    method CreateAmlHost(wwpn: string, alias: Option<string>) returns (created: bool)
      requires Valid()
      modifies this
      ensures Valid() && changes == old(changes) && created == (wwpn !in old(hosts))
      ensures groups == old(groups) && hosts == if created then old(hosts)[wwpn := Host(alias, [])] else old(hosts)
      ensures forall l :: Member(l) <==> old(Member(l))
    {
      if wwpn in hosts {
        return false;
      }
      assert forall l :: InGroup(groups, l) ==> OfHost(hosts, l);
      hosts := hosts[wwpn := Host(alias, [])];
      created := true;
    }

    /** Drops the group and takes its name off the hosts it lists. */
    method DeleteAccessGroup(name: string) returns (found: bool)
      requires Valid()
      modifies this
      ensures Valid() && found == (name in old(groups))
      ensures changes == if found then old(changes) + [GroupDeleted(name)] else old(changes)
      ensures groups == old(groups) - {name} && hosts.Keys == old(hosts.Keys)
      ensures forall l :: Member(l) <==> old(Member(l)) && l.group != name
      ensures forall h :: h in hosts ==> hosts[h].alias == old(hosts)[h].alias
    {
      if name !in groups {
        return false;
      }
      var listed := groups[name].hosts;
      var before := hosts;
      groups := groups - {name};
      ghost var remaining := groups;
      for i := 0 to |listed|
        invariant groups == remaining && changes == old(changes)
        invariant hosts.Keys == before.Keys
        invariant forall h :: h in hosts ==>
          hosts[h] == if h in listed[..i] then WithoutGroup(before[h], name) else before[h]
      {
        assert listed[..i + 1] == listed[..i] + [listed[i]];
        if listed[i] in hosts {
          hosts := hosts[listed[i] := WithoutGroup(hosts[listed[i]], name)];
        }
      }
      GroupGone(old(groups), before, hosts, name);
      Log(GroupDeleted(name));
      found := true;
    }

    /** Drops the host and takes it out of the groups it lists. */
    method DeleteAmlHost(wwpn: string) returns (found: bool)
      requires Valid()
      modifies this
      ensures Valid() && found == (wwpn in old(hosts))
      ensures changes == if found then old(changes) + [HostDeleted(wwpn)] else old(changes)
      ensures hosts == old(hosts) - {wwpn} && groups.Keys == old(groups.Keys)
      ensures forall l :: Member(l) <==> old(Member(l)) && l.host != wwpn
      ensures forall g :: g in groups ==> groups[g].devices == old(groups)[g].devices
    {
      if wwpn !in hosts {
        return false;
      }
      var listed := hosts[wwpn].groups;
      var before := groups;
      hosts := hosts - {wwpn};
      ghost var remaining := hosts;
      for i := 0 to |listed|
        invariant hosts == remaining && changes == old(changes)
        invariant groups.Keys == before.Keys
        invariant forall g :: g in groups ==>
          groups[g] == if g in listed[..i] then WithoutHost(before[g], wwpn) else before[g]
      {
        assert listed[..i + 1] == listed[..i] + [listed[i]];
        if listed[i] in groups {
          groups := groups[listed[i] := WithoutHost(groups[listed[i]], wwpn)];
        }
      }
      HostGone(before, old(hosts), groups, wwpn);
      Log(HostDeleted(wwpn));
      found := true;
    }

    /** Adds a membership on both sides, creating the host when it is unknown. */
    method AddHostToAccessGroup(name: string, wwpn: string, alias: Option<string>) returns (found: bool)
      requires Valid()
      modifies this
      ensures Valid() && found == (name in old(groups))
      ensures changes == if found then old(changes) + [Joined(Link(name, wwpn))] else old(changes)
      ensures !found ==> groups == old(groups) && hosts == old(hosts)
      ensures found ==> forall l :: Member(l) <==> old(Member(l)) || l == Link(name, wwpn)
      ensures found ==> groups.Keys == old(groups.Keys) && hosts.Keys == old(hosts.Keys) + {wwpn}
      ensures found ==>
        hosts[wwpn].alias == if wwpn !in old(hosts) || alias.Some? then alias else old(hosts)[wwpn].alias
      ensures forall g :: g in old(groups) ==> groups[g].devices == old(groups)[g].devices
      ensures forall h :: h in old(hosts) && h != wwpn ==> hosts[h].alias == old(hosts)[h].alias
    {
      if name !in groups {
        return false;
      }
      var host :=
        if wwpn !in hosts then Host(alias, [])
        else if alias.Some? then hosts[wwpn].(alias := alias)
        else hosts[wwpn];
      LinkAdded(groups, hosts, name, wwpn, host);
      groups := groups[name := groups[name].(hosts := Added(groups[name].hosts, wwpn))];
      hosts := hosts[wwpn := host.(groups := Added(host.groups, name))];
      Log(Joined(Link(name, wwpn)));
      found := true;
    }

    /** Removes a membership on both sides. */
    method RemoveHostFromAccessGroup(name: string, wwpn: string) returns (found: bool)
      requires Valid()
      modifies this
      ensures Valid() && found == old(Member(Link(name, wwpn)))
      ensures changes == if found then old(changes) + [Left(Link(name, wwpn))] else old(changes)
      ensures forall l :: Member(l) <==> old(Member(l)) && l != Link(name, wwpn)
      ensures groups.Keys == old(groups.Keys) && hosts.Keys == old(hosts.Keys)
      ensures forall g :: g in groups ==> groups[g].devices == old(groups)[g].devices
      ensures forall h :: h in hosts ==> hosts[h].alias == old(hosts)[h].alias
    {
      if name !in groups || wwpn !in groups[name].hosts {
        return false;
      }
      LinkRemoved(groups, hosts, name, wwpn);
      groups := groups[name := WithoutHost(groups[name], wwpn)];
      hosts := hosts[wwpn := WithoutGroup(hosts[wwpn], name)];
      Log(Left(Link(name, wwpn)));
      found := true;
    }
  }
}
