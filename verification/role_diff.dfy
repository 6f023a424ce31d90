/**
 * What a published role selector does when a member uses it: a select menu
 * revokes the menu's roles the member did not pick and grants the ones they
 * did; "remove all" revokes every role any menu offers; "list all" reports
 * the offered roles the member holds. Role changes are returned as calls
 * rather than performed.
 */
module RoleDiff {
  import opened Wrappers
  import opened Drafts
  import opened Components

  function SetOf(ids: seq<nat>): (s: set<nat>)
    ensures forall id :: id in s <==> id in ids
  {
    set id | id in ids
  }

  /** The roles to take away and the roles to give for one menu selection. */
  datatype Diff = Diff(revoke: set<nat>, grant: set<nat>)

  /**
   * The menu is authoritative over the roles it offers and nothing else:
   * every offered role not selected is revoked, every selected role granted.
   */
  function MenuDiff(offered: set<nat>, selected: set<nat>): (d: Diff)
    ensures forall id :: id in d.revoke <==> id in offered && id !in selected
    ensures d.grant == selected
    ensures d.revoke !! d.grant
    ensures d.revoke <= offered
    ensures selected <= offered ==> d.revoke + d.grant == offered
  {
    Diff(offered - selected, selected)
  }

  /** A bulk role change against the member. */
  datatype RoleCall = RemoveRoles(ids: set<nat>) | AddRoles(ids: set<nat>)

  /** The calls that carry out a diff: removal first, each skipped when it has nothing to do. */
  function Calls(d: Diff): (calls: seq<RoleCall>)
    ensures forall i :: 0 <= i < |calls| ==> calls[i].ids != {}
    ensures RemoveRoles(d.revoke) in calls <==> d.revoke != {}
    ensures AddRoles(d.grant) in calls <==> d.grant != {}
    ensures forall c :: c in calls ==> c == RemoveRoles(d.revoke) || c == AddRoles(d.grant)
    ensures |calls| <= 2
  {
    (if d.revoke != {} then [RemoveRoles(d.revoke)] else [])
    + (if d.grant != {} then [AddRoles(d.grant)] else [])
  }

  /** The member's roles after the platform performs the calls in order. */
  function ApplyCalls(held: set<nat>, calls: seq<RoleCall>): set<nat>
    decreases |calls|
  {
    if calls == [] then held
    else
      var next := match calls[0]
        case RemoveRoles(ids) => held - ids
        case AddRoles(ids) => held + ids;
      ApplyCalls(next, calls[1..])
  }

  /**
   * What carrying out calls does to any member, for a menu offering
   * `menuIds` and a selection `selected`: among the menu's roles the member
   * ends up holding exactly the selected ones, and a role neither offered
   * nor selected keeps its state.
   */
  ghost predicate SelectionEffect(menuIds: seq<nat>, selected: seq<nat>, calls: seq<RoleCall>) {
    forall held: set<nat>, id: nat ::
      && (id in menuIds ==> (id in ApplyCalls(held, calls) <==> id in selected))
      && (id !in menuIds && id !in selected ==> (id in ApplyCalls(held, calls) <==> id in held))
  }

  /**
   * A member picks `selected` in the menu with custom id `customId`. The
   * handler finds that menu in the message; without exactly one such menu
   * it stops with no calls. Otherwise the calls, whatever the member held,
   * leave them holding exactly the selected ones among that menu's roles
   * and change nothing outside the menu and the selection.
   */
  function SelectMenuExecuted(message: Component, customId: string, selected: seq<nat>): (calls: Option<seq<RoleCall>>)
    ensures calls.Some? <==> exists i :: OnlyMenuWithId(Menus(message), customId, i)
    ensures forall i :: OnlyMenuWithId(Menus(message), customId, i) ==>
      calls.Some? && SelectionEffect(OptionValues(Menus(message)[i]), selected, calls.value)
    ensures calls.Some? ==> forall j :: 0 <= j < |calls.value| ==> calls.value[j].ids != {}
  {
    match OfferedIds(message, customId)
    case None => None
    case Some(offered) =>
      CallsHaveSelectionEffect(offered, selected);
      Some(Calls(MenuDiff(SetOf(offered), SetOf(selected))))
  }

  lemma CallsHaveSelectionEffect(offered: seq<nat>, selected: seq<nat>)
    ensures SelectionEffect(offered, selected, Calls(MenuDiff(SetOf(offered), SetOf(selected))))
  {
    forall held: set<nat> {
      MenuSelectionDecidesMenuRoles(held, SetOf(offered), SetOf(selected));
    }
  }

  /**
   * After a menu selection is carried out, the member holds exactly the
   * selected ones among the menu's roles, holds every selected role, and
   * keeps every other role as it was.
   */
  lemma MenuSelectionDecidesMenuRoles(held: set<nat>, offered: set<nat>, selected: set<nat>)
    ensures forall id :: id in offered ==>
      (id in ApplyCalls(held, Calls(MenuDiff(offered, selected))) <==> id in selected)
    ensures selected <= ApplyCalls(held, Calls(MenuDiff(offered, selected)))
    ensures forall id :: id !in offered && id !in selected ==>
      (id in ApplyCalls(held, Calls(MenuDiff(offered, selected))) <==> id in held)
  {
    var d := MenuDiff(offered, selected);
    var calls := Calls(d);
    var afterRevoke := if d.revoke != {} then held - d.revoke else held;
    var afterGrant := if d.grant != {} then afterRevoke + d.grant else afterRevoke;
    var first := if d.revoke != {} then [RemoveRoles(d.revoke)] else [];
    var second := if d.grant != {} then [AddRoles(d.grant)] else [];
    ApplyCallsAppend(held, first, second);
    assert ApplyCalls(held, first) == afterRevoke by {
      if d.revoke != {} {
        assert first[1..] == [];
      }
    }
    assert ApplyCalls(afterRevoke, second) == afterGrant by {
      if d.grant != {} {
        assert second[1..] == [];
      }
    }
  }

  /** Performing two batches of calls is performing their concatenation. */
  lemma {:induction false} ApplyCallsAppend(held: set<nat>, a: seq<RoleCall>, b: seq<RoleCall>)
    ensures ApplyCalls(held, a + b) == ApplyCalls(ApplyCalls(held, a), b)
    decreases |a|
  {
    if a == [] {
      assert a + b == b;
    } else {
      assert (a + b)[0] == a[0];
      assert (a + b)[1..] == a[1..] + b;
      var next := match a[0]
        case RemoveRoles(ids) => held - ids
        case AddRoles(ids) => held + ids;
      ApplyCallsAppend(next, a[1..], b);
    }
  }

  /**
   * A member selects in the menu of group i of a published draft: afterwards
   * they hold exactly the selected ones among that group's roles, and every
   * role outside the group and the selection is as it was.
   */
  lemma PublishedMenuSelection(d: Draft, i: nat, selected: seq<nat>, held: set<nat>)
    requires Distinct(GroupNames(d))
    requires i < |d|
    ensures SelectMenuExecuted(Render(d), d[i].name, selected).Some?
    ensures forall id :: id in RoleIds(d[i].roles) ==>
      (id in ApplyCalls(held, SelectMenuExecuted(Render(d), d[i].name, selected).value) <==> id in selected)
    ensures forall id :: id !in RoleIds(d[i].roles) && id !in selected ==>
      (id in ApplyCalls(held, SelectMenuExecuted(Render(d), d[i].name, selected).value) <==> id in held)
  {
  }

  /** What a button press yields. */
  datatype ButtonResult =
    | Listed(ids: set<nat>)
    | RemovedAll(calls: seq<RoleCall>)
    | Ignored

  /**
   * A member presses a button of the message. "list" reports the offered
   * roles the member holds; "remove" revokes every role any menu offers,
   * whatever the member holds, skipping the call when no menu offers one;
   * any other id does nothing.
   */
  function ButtonExecuted(message: Component, customId: string, held: set<nat>): (r: ButtonResult)
    ensures customId == "list" ==>
      && r.Listed?
      && r.ids <= held
      && forall id :: id in r.ids <==> id in held && id in AllOfferedIds(message)
    ensures customId == "remove" ==>
      && r.RemovedAll?
      && (r.calls == [] <==> AllOfferedIds(message) == [])
      && forall c :: c in r.calls ==> c == RemoveRoles(SetOf(AllOfferedIds(message)))
    ensures customId != "list" && customId != "remove" ==> r.Ignored?
  {
    var all := AllOfferedIds(message);
    if customId == "list" then Listed(SetOf(all) * held)
    else if customId == "remove" then
      if |all| != 0 then
        assert all[0] in SetOf(all);
        RemovedAll([RemoveRoles(SetOf(all))])
      else RemovedAll([])
    else Ignored
  }

  /**
   * After "remove all" is carried out the member holds none of the roles
   * any menu offers and keeps every other role.
   */
  lemma RemoveAllClearsOfferedRoles(message: Component, held: set<nat>)
    ensures forall id :: id in ApplyCalls(held, ButtonExecuted(message, "remove", held).calls) <==>
      id in held && id !in AllOfferedIds(message)
  {
  }

  // ---------------------------------------------------------------------
  // Worked examples
  // ---------------------------------------------------------------------

  /** Menu {1, 2, 3}, selection {2, 3}: grant {2, 3}, revoke {1}. */
  lemma MenuDiffExample()
    ensures MenuDiff({1, 2, 3}, {2, 3}) == Diff({1}, {2, 3})
    ensures Calls(MenuDiff({1, 2, 3}, {2, 3})) == [RemoveRoles({1}), AddRoles({2, 3})]
  {
  }

  /** An empty selection grants nothing and revokes the whole menu. */
  lemma EmptySelection(offered: set<nat>)
    ensures MenuDiff(offered, {}).revoke == offered
    ensures forall c :: c in Calls(MenuDiff(offered, {})) ==> c.RemoveRoles?
  {
  }

  /** "remove all" on menus offering {1, 2} and {3, 4} revokes {1, 2, 3, 4}. */
  lemma RemoveAllExample(held: set<nat>)
    ensures ButtonExecuted(
      Render([Group("a", [Role(1, "one"), Role(2, "two")]), Group("b", [Role(3, "three"), Role(4, "four")])]),
      "remove", held) == RemovedAll([RemoveRoles({1, 2, 3, 4})])
  {
    var d := [Group("a", [Role(1, "one"), Role(2, "two")]), Group("b", [Role(3, "three"), Role(4, "four")])];
    RenderAllOffered(d);
    var ids := SetOf(AllOfferedIds(Render(d)));
    assert RoleIds(d[0].roles) == [1, 2];
    assert RoleIds(d[1].roles) == [3, 4];
    assert 1 in RoleIds(d[0].roles) && 2 in RoleIds(d[0].roles);
    assert 3 in RoleIds(d[1].roles) && 4 in RoleIds(d[1].roles);
    assert ids == {1, 2, 3, 4};
  }
}
