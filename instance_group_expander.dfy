/**
 * The GoogleComputeInstanceGroupManagerInstances middleware
 * (pkg/middlewares/google_compute_instance_group_manager_expander.go).
 *
 * A managed instance group manager declared in Terraform state creates
 * instance groups that exist only remotely.  The middleware rebuilds the
 * state list so that each manager is directly followed by the remote
 * instance groups that carry its name.
 */
module InstanceGroupExpander {
  import opened Wrappers
  import opened Resources

  const InstanceGroupType := "google_compute_instance_group"
  const InstanceGroupManagerType := "google_compute_instance_group_manager"

  /** A `*[]*resource.Resource`: a list the middleware may overwrite. */
  class ResourceList {
    var items: seq<Resource>

    constructor (items: seq<Resource>)
      ensures this.items == items
    {
      this.items := items;
    }
  }

  function Name(r: Resource): Option<string>
  {
    GetString(r, "name")
  }

  predicate IsManager(r: Resource)
  {
    r.resourceType == InstanceGroupManagerType
  }

  /** What Execute needs of its input: the source dereferences a manager's
      name once it meets a remote instance group with a name, so a manager
      without a name is only safe when no remote instance group has one. */
  predicate NamelessManagerSafe(state: seq<Resource>, remote: seq<Resource>)
  {
    forall m, g :: m in state && IsManager(m) && Name(m).None? && g in remote && g.resourceType == InstanceGroupType
      ==> Name(g).None?
  }

  /** The remote resources of type google_compute_instance_group, in order. */
  function InstanceGroups(remote: seq<Resource>): seq<Resource>
  {
    if remote == [] then []
    else
      var last := remote[|remote| - 1];
      InstanceGroups(remote[..|remote| - 1]) + (if last.resourceType == InstanceGroupType then [last] else [])
  }

  /** The groups whose name is present and equal to name, in order. */
  function NamedAs(groups: seq<Resource>, name: string): seq<Resource>
  {
    if groups == [] then []
    else
      var last := groups[|groups| - 1];
      NamedAs(groups[..|groups| - 1], name) + (if Name(last) == Some(name) then [last] else [])
  }

  /** What follows a state resource in the new list. */
  function Injected(r: Resource, remote: seq<Resource>): seq<Resource>
  {
    if IsManager(r) && Name(r).Some? then NamedAs(InstanceGroups(remote), Name(r).value) else []
  }

  /** The new state list: each state resource followed by what it injects. */
  function Expanded(state: seq<Resource>, remote: seq<Resource>): seq<Resource>
  {
    if state == [] then []
    else
      var last := state[|state| - 1];
      Expanded(state[..|state| - 1], remote) + [last] + Injected(last, remote)
  }

  /** Execute: it reads the remote list, overwrites the state list with its
      expansion and always succeeds (None is a nil error). */
  method Execute(remoteResources: ResourceList, resourcesFromState: ResourceList) returns (err: Option<string>)
    requires NamelessManagerSafe(resourcesFromState.items, remoteResources.items)
    modifies resourcesFromState
    ensures err == None
    ensures resourcesFromState.items == Expanded(old(resourcesFromState.items), old(remoteResources.items))
    ensures remoteResources != resourcesFromState ==> remoteResources.items == old(remoteResources.items)
  {
    var remote := remoteResources.items;
    var state := resourcesFromState.items;
    var newStateResources: seq<Resource> := [];

    var instanceGroups := CollectInstanceGroups(remote);

    for i := 0 to |state|
      invariant newStateResources == Expanded(state[..i], remote)
    {
      ExpandedStep(state, remote, i);
      newStateResources := newStateResources + [state[i]];

      // Ignore all resources other than google_compute_instance_group_manager
      if state[i].resourceType != InstanceGroupManagerType {
        continue;
      }

      var name := Name(state[i]);
      InstanceGroupsIn(remote);
      newStateResources := AppendNamed(newStateResources, instanceGroups, name);
    }
    assert state[..|state|] == state;

    resourcesFromState.items := newStateResources;
    return None;
  }

  /** The first loop of Execute: the remote instance groups, in order. */
  method CollectInstanceGroups(remote: seq<Resource>) returns (instanceGroups: seq<Resource>)
    ensures instanceGroups == InstanceGroups(remote)
  {
    instanceGroups := [];
    for i := 0 to |remote|
      invariant instanceGroups == InstanceGroups(remote[..i])
    {
      assert remote[..i + 1][..i] == remote[..i];
      // Ignore all resources other than google_compute_instance_group
      if remote[i].resourceType != InstanceGroupType {
        continue;
      }
      instanceGroups := instanceGroups + [remote[i]];
    }
    assert remote[..|remote|] == remote;
  }

  /** The inner loop of Execute: appends the groups named name, in order;
      a manager without a name appends nothing. */
  method AppendNamed(newStateResources: seq<Resource>, instanceGroups: seq<Resource>, name: Option<string>)
    returns (r: seq<Resource>)
    requires name.None? ==> forall g :: g in instanceGroups ==> Name(g).None?
    ensures name.Some? ==> r == newStateResources + NamedAs(instanceGroups, name.value)
    ensures name.None? ==> r == newStateResources
  {
    r := newStateResources;
    for j := 0 to |instanceGroups|
      invariant name.Some? ==> r == newStateResources + NamedAs(instanceGroups[..j], name.value)
      invariant name.None? ==> r == newStateResources
    {
      assert instanceGroups[..j + 1][..j] == instanceGroups[..j];
      var n := GetString(instanceGroups[j], "name");
      if n != None && n.value == name.value {
        r := r + [instanceGroups[j]];
      }
    }
    assert instanceGroups[..|instanceGroups|] == instanceGroups;
  }

  /** The collected groups are the remote resources of the group type. */
  lemma {:induction false} InstanceGroupsIn(remote: seq<Resource>)
    ensures forall g :: g in InstanceGroups(remote) <==> g in remote && g.resourceType == InstanceGroupType
    decreases |remote|
  {
    if remote != [] {
      var init := remote[..|remote| - 1];
      InstanceGroupsIn(init);
      assert remote == init + [remote[|remote| - 1]];
    }
  }

  /** One more state resource: it is appended, followed by what it injects. */
  lemma ExpandedStep(state: seq<Resource>, remote: seq<Resource>, i: nat)
    requires i < |state|
    ensures Expanded(state[..i + 1], remote) == Expanded(state[..i], remote) + [state[i]] + Injected(state[i], remote)
  {
    assert state[..i + 1][..i] == state[..i];
  }

  // Properties of the expansion

  lemma {:induction false} ExpandedConcat(a: seq<Resource>, b: seq<Resource>, remote: seq<Resource>)
    ensures Expanded(a + b, remote) == Expanded(a, remote) + Expanded(b, remote)
    decreases |b|
  {
    if b == [] {
      assert a + b == a;
    } else {
      var b' := b[..|b| - 1];
      assert (a + b)[..|a + b| - 1] == a + b';
      assert (a + b)[|a + b| - 1] == b[|b| - 1];
      ExpandedConcat(a, b', remote);
    }
  }

  /** Each state resource keeps its place among the others and is followed
      directly by exactly what it injects: a manager the remote instance
      groups of its name, any other resource nothing. */
  lemma ExpandedAt(state: seq<Resource>, remote: seq<Resource>, k: nat)
    requires k < |state|
    ensures Expanded(state, remote)
         == Expanded(state[..k], remote) + [state[k]] + Injected(state[k], remote) + Expanded(state[k + 1..], remote)
  {
    var upTo := state[..k + 1];
    ExpandedStep(state, remote, k);
    assert state == upTo + state[k + 1..];
    ExpandedConcat(upTo, state[k + 1..], remote);
  }

  lemma ExpandedSingle(x: Resource, remote: seq<Resource>)
    ensures Expanded([x], remote) == [x] + Injected(x, remote)
  {
    assert [x][..0] == [];
  }

  /** The original state resources form a subsequence of the new list, in
      their original order. */
  lemma KeptInOrder(state: seq<Resource>, remote: seq<Resource>, k: nat, j: nat)
    requires k < j < |state|
    ensures |Expanded(state[..k], remote)| < |Expanded(state[..j], remote)| < |Expanded(state, remote)|
    ensures Expanded(state, remote)[|Expanded(state[..k], remote)|] == state[k]
    ensures Expanded(state, remote)[|Expanded(state[..j], remote)|] == state[j]
  {
    ExpandedAt(state, remote, k);
    ExpandedAt(state, remote, j);
    ExpandedAt(state[..j], remote, k);
    assert state[..j][..k] == state[..k];
  }

  /** The remote instance groups named name, taken in one pass. */
  function GroupsNamed(remote: seq<Resource>, name: string): seq<Resource>
  {
    if remote == [] then []
    else
      var last := remote[|remote| - 1];
      GroupsNamed(remote[..|remote| - 1], name)
      + (if last.resourceType == InstanceGroupType && Name(last) == Some(name) then [last] else [])
  }

  /** Collecting the instance groups first and filtering them by name
      afterwards gives the remote resources that are instance groups and
      have that name, in remote order. */
  lemma {:induction false} MatchingGroups(remote: seq<Resource>, name: string)
    ensures NamedAs(InstanceGroups(remote), name) == GroupsNamed(remote, name)
    ensures forall x :: (x in GroupsNamed(remote, name)
                         <==> x in remote && x.resourceType == InstanceGroupType && Name(x) == Some(name))
    decreases |remote|
  {
    if remote != [] {
      var init := remote[..|remote| - 1];
      var last := remote[|remote| - 1];
      MatchingGroups(init, name);
      assert remote == init + [last];
      var extra := if last.resourceType == InstanceGroupType then [last] else [];
      NamedAsConcat(InstanceGroups(init), extra, name);
      assert NamedAs(extra, name)
          == if last.resourceType == InstanceGroupType && Name(last) == Some(name) then [last] else [];
    }
  }

  lemma {:induction false} NamedAsConcat(a: seq<Resource>, b: seq<Resource>, name: string)
    ensures NamedAs(a + b, name) == NamedAs(a, name) + NamedAs(b, name)
    decreases |b|
  {
    if b == [] {
      assert a + b == a;
    } else {
      var b' := b[..|b| - 1];
      assert (a + b)[..|a + b| - 1] == a + b';
      NamedAsConcat(a, b', name);
    }
  }

  /** Everything in the new list is a state resource or a remote instance
      group whose name is present and is the name of a manager in state. */
  lemma {:induction false} OnlyInstanceGroupsInjected(state: seq<Resource>, remote: seq<Resource>, x: Resource)
    requires x in Expanded(state, remote)
    ensures x in state ||
      (x in remote && x.resourceType == InstanceGroupType && Name(x).Some? &&
       exists m :: m in state && IsManager(m) && Name(m) == Name(x))
    decreases |state|
  {
    var init := state[..|state| - 1];
    var last := state[|state| - 1];
    assert state == init + [last];
    if x in Expanded(init, remote) {
      OnlyInstanceGroupsInjected(init, remote, x);
    } else if x != last {
      assert x in Injected(last, remote);
      MatchingGroups(remote, Name(last).value);
    }
  }

  /** The number of remote groups the managers of state inject. */
  function InjectedCount(state: seq<Resource>, remote: seq<Resource>): nat
  {
    if state == [] then 0
    else |Injected(state[0], remote)| + InjectedCount(state[1..], remote)
  }

  /** The new list is the old one plus, per manager, its matching groups. */
  lemma {:induction false} ExpandedLength(state: seq<Resource>, remote: seq<Resource>)
    ensures |Expanded(state, remote)| == |state| + InjectedCount(state, remote)
    decreases |state|
  {
    if state != [] {
      ExpandedLength(state[1..], remote);
      ExpandedConcat([state[0]], state[1..], remote);
      assert [state[0]] + state[1..] == state;
      ExpandedSingle(state[0], remote);
    }
  }

  /** Without a manager in state, the state list is left as it was. */
  lemma {:induction false} NoManagerUnchanged(state: seq<Resource>, remote: seq<Resource>)
    requires forall k :: 0 <= k < |state| ==> !IsManager(state[k])
    ensures Expanded(state, remote) == state
    decreases |state|
  {
    if state != [] {
      NoManagerUnchanged(state[..|state| - 1], remote);
    }
  }

  /** The middleware is not idempotent: run again on its own output, it
      injects the same instance group a second time. */
  lemma SecondRunInjectsAgain()
    ensures var m := Resource(InstanceGroupManagerType, "m", map["name" := Str("g")]);
      var g := Resource(InstanceGroupType, "g", map["name" := Str("g")]);
      Expanded([m], [g]) == [m, g] && Expanded([m, g], [g]) == [m, g, g]
  {
    var m := Resource(InstanceGroupManagerType, "m", map["name" := Str("g")]);
    var g := Resource(InstanceGroupType, "g", map["name" := Str("g")]);
    assert InstanceGroups([g]) == [g];
    assert NamedAs([g], "g") == [g];
    assert Injected(m, [g]) == [g];
    assert Injected(g, [g]) == [];
    assert [m, g][..1] == [m];
  }
}
