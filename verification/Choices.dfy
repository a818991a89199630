/** One choice group: the choice symbol and its members under any sequence of settings, clearings
    and calculations (symbol.c). What the group depends on besides itself is given from outside and
    changes only when the VALID flags are cleared; the dependency check reports members that depend
    on each other. */
module Choices {
  import opened Expressions

  /** The values of the expressions outside the group. */
  datatype Outside = Outside(
    modules: Tri,
    prompt: Tri,
    reverse: Tri,
    conds: seq<Tri>,
    reverses: seq<Tri>,
    memberDefaults: seq<Tri>,
    defaults: seq<(Tri, nat)>)

  datatype Member = Member(valid: bool, visible: Tri, revDep: Tri, tri: Tri, hasUser: bool, userTri: Tri)

  class Group {
    const tristate: bool
    const memberTristate: seq<bool>
    var outside: Outside
    // the choice symbol
    var valid: bool
    var visible: Tri
    var revDep: Tri
    var tri: Tri
    var val: Option<nat>
    var hasUser: bool
    var userTri: Tri
    var userVal: Option<nat>
    // its members
    var members: seq<Member>

    constructor (tristate: bool, memberTristate: seq<bool>, outside: Outside)
      requires Fits(outside, |memberTristate|)
      ensures this.tristate == tristate && this.memberTristate == memberTristate
      ensures Inv()
    {
      this.tristate, this.memberTristate, this.outside := tristate, memberTristate, outside;
      valid, visible, revDep, tri, val, hasUser, userTri, userVal := false, NO, NO, NO, None, false, NO, None;
      members := seq(|memberTristate|, _ => Member(false, NO, NO, NO, false, NO));
    }

    static predicate Fits(o: Outside, n: nat) {
      && |o.conds| == n && |o.reverses| == n && |o.memberDefaults| == n
      && forall i :: 0 <= i < |o.defaults| ==> o.defaults[i].1 < n
    }

    /** A valid, fully visible member is at y or n, and at y exactly when the valid choice records
        it. */
    ghost predicate Inv()
      reads this
    {
      && |members| == |memberTristate| && Fits(outside, |members|)
      && (userVal.Some? ==> userVal.value < |members|)
      && (valid ==> ChoiceTyped(tri))
      && (valid && tri == YES ==> val.Some? && val.value < |members|)
      && (forall i :: 0 <= i < |members| && members[i].valid ==> valid)
      && (forall i :: 0 <= i < |members| && members[i].valid && members[i].visible == YES ==>
            tri == YES && members[i].tri == (if val == Some(i) then YES else NO))
    }

    /** The choice is m only if it is tristate and modules are on. */
    predicate ChoiceTyped(t: Tri)
      reads this
    {
      t == MOD ==> tristate && outside.modules != NO
    }

    /** Exclusivity: a valid choice at y has at most one valid, fully visible member at y, namely
        the recorded one; and that one is at y when it is valid and fully visible. */
    ghost predicate Exclusive()
      reads this
    {
      valid && tri == YES ==>
        && val.Some?
        && (forall i :: 0 <= i < |members| && members[i].valid && members[i].visible == YES ==>
              members[i].tri != MOD && (members[i].tri == YES <==> i == val.value))
    }

    /** Valid, fully visible and at y. */
    ghost predicate Chosen(i: nat)
      requires i < |members|
      reads this
    {
      members[i].valid && members[i].visible == YES && members[i].tri == YES
    }

    lemma InvIsExclusive(i: nat, j: nat)
      requires Inv() && i < |members| && j < |members|
      ensures Exclusive()
      ensures Chosen(i) && Chosen(j) ==> i == j
    {
    }

    // ---------- visibility ----------

    static function Promoted(t: Tri, tristate: bool, modules: Tri): Tri {
      if t == MOD && (!tristate || modules == NO) then YES else t
    }

    /** The prompt condition of a member contains its choice, and, for a member that is not
        tristate in a tristate choice, also "choice = y" (menu.c:431-440). */
    function MemberVisible(i: nat, choiceTri: Tri): Tri
      requires i < |memberTristate| && Fits(outside, |memberTristate|)
      reads `outside
    {
      var c := Join(AndOp, choiceTri, outside.conds[i]);
      var c := if tristate && !memberTristate[i] && choiceTri != YES then NO else c;
      Promoted(c, memberTristate[i], outside.modules)
    }

    /** The reverse dependency of a member, which is promoted like its value. */
    function MemberReverse(i: nat, choiceTri: Tri): Tri
      requires i < |memberTristate| && Fits(outside, |memberTristate|)
      reads `outside
    {
      Promoted(outside.reverses[i], memberTristate[i] && MemberVisible(i, choiceTri) != YES, outside.modules)
    }

    /** sym_calc_visibility on a member, with the choice as calculated so far. */
    method CalcMemberVisibility(i: nat)
      requires |members| == |memberTristate| && Fits(outside, |members|) && i < |members|
      modifies `members
      ensures members == old(members)[i := old(members[i]).(
        visible := MemberVisible(i, tri), revDep := MemberReverse(i, tri))]
    {
      var v := MemberVisible(i, tri);
      members := members[i := members[i].(visible := v)];
      var actsBoolean := !memberTristate[i] || v == YES || outside.modules == NO;
      var r := outside.reverses[i];
      if r == MOD && actsBoolean {
        r := YES;
      }
      members := members[i := members[i].(revDep := r)];
    }

    // ---------- the selected member ----------

    /** A default of the choice that is on and names a visible member. */
    predicate Applies(k: nat)
      requires Fits(outside, |members|) && k < |outside.defaults|
      reads `members, `outside
    {
      outside.defaults[k].0 != NO && members[outside.defaults[k].1].visible != NO
    }

    predicate FirstSelected(i: nat)
      requires i < |members|
      reads `members, `outside
    {
      members[i].revDep != NO && forall j :: 0 <= j < i ==> members[j].revDep == NO
    }

    predicate FirstApplying(k: nat)
      requires Fits(outside, |members|) && k < |outside.defaults|
      reads `members, `outside
    {
      Applies(k) && forall l: nat :: l < k ==> !Applies(l)
    }

    predicate FirstVisible(i: nat)
      requires i < |members|
      reads `members, `outside
    {
      members[i].visible != NO && forall j :: 0 <= j < i ==> members[j].visible == NO
    }

    /** The member a choice falls back to: the first selected one, else that of the first default
        that applies, else the first visible one, else none. */
    ghost predicate IsDefault(r: Option<nat>)
      requires Fits(outside, |members|)
      reads `members, `outside
    {
      if exists i: nat :: i < |members| && FirstSelected(i) then
        r.Some? && r.value < |members| && FirstSelected(r.value)
      else if exists k: nat :: k < |outside.defaults| && FirstApplying(k) then
        exists k: nat :: k < |outside.defaults| && FirstApplying(k) && r == Some(outside.defaults[k].1)
      else if exists i: nat :: i < |members| && FirstVisible(i) then
        r.Some? && r.value < |members| && FirstVisible(r.value)
      else r == None
    }

    /** sym_choice_default */
    method ChoiceDefault() returns (r: Option<nat>)
      requires |members| == |memberTristate| && Fits(outside, |members|)
      ensures IsDefault(r)
      ensures r.Some? ==> members[r.value].visible != NO || members[r.value].revDep != NO
      ensures r == None ==> forall i :: 0 <= i < |members| ==> members[i].visible == NO && members[i].revDep == NO
    {
      for i := 0 to |members|
        invariant forall j :: 0 <= j < i ==> members[j].revDep == NO
      {
        if members[i].revDep != NO {
          assert FirstSelected(i);
          return Some(i);
        }
      }
      for i := 0 to |outside.defaults|
        invariant forall k: nat :: k < i ==> !Applies(k)
      {
        var d := outside.defaults[i];
        if d.0 != NO && members[d.1].visible != NO {
          assert FirstApplying(i);
          return Some(d.1);
        }
      }
      for i := 0 to |members|
        invariant forall j :: 0 <= j < i ==> members[j].visible == NO
      {
        if members[i].visible != NO {
          assert FirstVisible(i);
          return Some(i);
        }
      }
      r := None;
    }

    /** Of the first `n` members all visible ones were set by the user. */
    predicate AllSet(n: nat)
      requires n <= |members|
      reads `members
    {
      forall i :: 0 <= i < n && members[i].visible != NO ==> members[i].hasUser
    }

    /** sym_calc_choice: the visibility of all members, then the user's choice if it is visible. The
        choice counts as set by the user only if all its visible members do. */
    method CalcChoice() returns (r: Option<nat>)
      requires |members| == |memberTristate| && Fits(outside, |members|) && tri == YES
      requires userVal.Some? ==> userVal.value < |members|
      modifies `members, `hasUser, `tri
      ensures |members| == |memberTristate|
      ensures forall i :: 0 <= i < |members| ==>
        members[i] == old(members[i]).(visible := MemberVisible(i, YES), revDep := MemberReverse(i, YES))
      ensures hasUser == (old(hasUser) && AllSet(|members|))
      ensures tri == if r == None then NO else YES
      ensures if userVal.Some? && members[userVal.value].visible != NO then r == userVal else IsDefault(r)
    {
      var all := hasUser;
      for i := 0 to |members|
        invariant |members| == |memberTristate| && tri == YES
        invariant forall j :: 0 <= j < |members| ==>
          members[j] == if j < i
            then old(members[j]).(visible := MemberVisible(j, YES), revDep := MemberReverse(j, YES))
            else old(members[j])
        invariant hasUser == old(hasUser) && all == (hasUser && AllSet(i))
      {
        CalcMemberVisibility(i);
        if members[i].visible != NO {
          all := all && members[i].hasUser;
        }
      }
      hasUser := hasUser && all;
      if userVal.Some? && members[userVal.value].visible != NO {
        return userVal;
      }
      r := ChoiceDefault();
      if r == None {
        tri := NO;
      }
    }

    // ---------- calculation ----------

    /** The value of the choice symbol before its members are looked at. */
    function ChoiceBase(): Tri
      reads this
    {
      var v := Promoted(outside.prompt, tristate, outside.modules);
      var t := if v != NO && hasUser then Join(AndOp, userTri, v) else NO;
      Promoted(Join(OrOp, t, Promoted(outside.reverse, tristate, outside.modules)), tristate, outside.modules)
    }

    method CalcBase()
      modifies `valid, `visible, `revDep, `tri, `val
      ensures valid && tri == old(ChoiceBase()) && val == None && ChoiceTyped(tri)
      ensures visible == Promoted(outside.prompt, tristate, outside.modules)
      ensures revDep == Promoted(outside.reverse, tristate, outside.modules)
    {
      valid := true;
      visible := Promoted(outside.prompt, tristate, outside.modules);
      revDep := Promoted(outside.reverse, tristate, outside.modules);
      tri, val := NO, None;
      var newval := NO;
      if visible != NO && hasUser {
        newval := Join(AndOp, userTri, visible);
      }
      newval := Join(OrOp, newval, revDep);
      tri := Promoted(newval, tristate, outside.modules);
    }

    /** sym_calc_value on the choice symbol: at y it records the member the user chose, if that one is
        visible, or the default; and without either it falls to n. */
    method CalcChoiceSymbol()
      requires Inv()
      modifies this
      ensures Inv() && valid && outside == old(outside) && userVal == old(userVal) && userTri == old(userTri)
      ensures old(valid) ==>
        tri == old(tri) && val == old(val) && members == old(members) && visible == old(visible) && revDep == old(revDep)
      ensures forall i :: 0 <= i < |members| ==>
        members[i] == old(members[i]).(visible := members[i].visible, revDep := members[i].revDep)
      ensures !old(valid) ==>
        && visible == Promoted(outside.prompt, tristate, outside.modules)
        && revDep == Promoted(outside.reverse, tristate, outside.modules)
      ensures !old(valid) && old(ChoiceBase()) != YES ==>
        tri == old(ChoiceBase()) && val == None && members == old(members)
      ensures !old(valid) && old(ChoiceBase()) == YES ==>
        && tri == (if val == None then NO else YES)
        && (forall i :: 0 <= i < |members| ==> members[i].visible == MemberVisible(i, YES))
        && if userVal.Some? && members[userVal.value].visible != NO then val == userVal else IsDefault(val)
    {
      if valid {
        return;
      }
      CalcBase();
      hide ChoiceBase, IsDefault, MemberVisible, MemberReverse, AllSet, Promoted;
      if tri == YES {
        val := CalcChoice();
      }
    }

    /** The value of a member that is not fully visible. */
    function PartialValue(i: nat, m: Member): Tri
      requires i < |memberTristate| && Fits(outside, |memberTristate|)
      reads `outside
    {
      var t := if m.visible != NO && m.hasUser then Join(AndOp, m.userTri, m.visible) else outside.memberDefaults[i];
      Promoted(Join(OrOp, t, m.revDep), memberTristate[i], outside.modules)
    }

    /** sym_calc_value on a member. Its prompt condition contains the choice symbol, so that one is
        calculated on the way. */
    method CalcMember(i: nat)
      requires Inv() && i < |members|
      modifies this
      ensures Inv() && members[i].valid && valid && |members| == |old(members)|
      ensures outside == old(outside) && userVal == old(userVal) && userTri == old(userTri)
      ensures old(members[i]).valid ==>
        members == old(members) && tri == old(tri) && val == old(val)
      ensures forall j :: 0 <= j < |members| && j != i ==>
        members[j] == old(members[j]).(visible := members[j].visible, revDep := members[j].revDep)
      ensures !old(members[i]).valid ==>
        && members[i].visible == MemberVisible(i, tri) && members[i].revDep == MemberReverse(i, tri)
        && members[i].hasUser == old(members[i]).hasUser && members[i].userTri == old(members[i]).userTri
      ensures !old(members[i]).valid && members[i].visible == YES ==>
        tri == YES && members[i].tri == (if val == Some(i) then YES else NO)
      ensures !old(members[i]).valid && members[i].visible != YES ==>
        members[i].tri == PartialValue(i, members[i])
      ensures old(valid) ==> tri == old(tri) && val == old(val)
      ensures !old(valid) && tri == YES && userVal.Some? && MemberVisible(userVal.value, YES) != NO ==> val == userVal
    {
      if members[i].valid {
        return;
      }
      hide ChoiceBase, IsDefault, MemberVisible, MemberReverse, PartialValue;
      CalcChoiceSymbol();
      CalcMemberVisibility(i);
      VisibleMeansChosen(i);
      SettleMember(i);
    }

    /** The value of a member whose visibility is known. */
    method SettleMember(i: nat)
      requires |members| == |memberTristate| && Fits(outside, |members|) && i < |members|
      modifies `members
      ensures members == old(members)[i := old(members[i]).(valid := true,
        tri := if old(members[i]).visible == YES then (if val == Some(i) then YES else NO)
               else PartialValue(i, old(members[i])))]
    {
      var m := members[i];
      var newval := NO;
      if m.visible == YES {
        newval := if val == Some(i) then YES else NO;
      } else {
        if m.visible != NO && m.hasUser {
          newval := Join(AndOp, m.userTri, m.visible);
        } else {
          newval := outside.memberDefaults[i];
        }
        newval := Join(OrOp, newval, m.revDep);
        newval := Promoted(newval, memberTristate[i], outside.modules);
      }
      members := members[i := m.(valid := true, tri := newval)];
    }

    /** A member is fully visible only while its choice is y. */
    lemma VisibleMeansChosen(i: nat)
      requires Inv() && valid && i < |members|
      ensures MemberVisible(i, tri) == YES ==> tri == YES
    {
    }

    // ---------- settings ----------

    /** sym_clear_all_valid; what lies outside the group may have new values from here on. */
    method ClearAllValid(o: Outside)
      requires Inv() && Fits(o, |members|)
      modifies this
      ensures Inv() && outside == o && !valid && |members| == |old(members)|
      ensures forall i :: 0 <= i < |members| ==> members[i] == old(members[i]).(valid := false)
      ensures userVal == old(userVal) && userTri == old(userTri) && hasUser == old(hasUser)
    {
      outside := o;
      valid := false;
      var ms := members;
      members := seq(|ms|, i requires 0 <= i < |ms| => ms[i].(valid := false));
    }

    /** sym_tristate_within_range on a member. */
    predicate WithinRange(i: nat, v: Tri)
      requires i < |members| && |members| == |memberTristate|
      reads this
    {
      var m := members[i];
      var actsBoolean := !memberTristate[i] || m.visible == YES || outside.modules == NO;
      && m.visible != NO
      && !(actsBoolean && v == MOD)
      && m.visible > m.revDep
      && (if m.visible == YES then v == YES else m.revDep <= v <= m.visible)
    }

    /** A value is in the range of a fully visible member only if it chooses it. For any other member that
        is visible above its reverse dependency, the range are exactly the values that the member then
        has; and no other member can be set. */
    lemma RangeIsEffect(i: nat, v: Tri)
      requires Inv() && i < |members|
      requires members[i].visible == MemberVisible(i, tri) && members[i].revDep == MemberReverse(i, tri)
      ensures members[i].visible == YES && members[i].revDep != YES ==> (WithinRange(i, v) <==> v == YES)
      ensures members[i].visible == MOD && members[i].revDep == NO ==>
        (WithinRange(i, v) <==> PartialValue(i, members[i].(hasUser := true, userTri := v)) == v)
      ensures WithinRange(i, v) ==> members[i].visible > members[i].revDep
    {
    }

    /** The value that the choice takes from a setting of the user (ChoiceBase). */
    function SetTo(v: Tri): Tri
      reads `visible, `revDep, `outside
    {
      Promoted(Join(OrOp, Join(AndOp, v, visible), revDep), tristate, outside.modules)
    }

    /** The range of the choice, if it is visible above its reverse dependency, are exactly the values that
        it then has. */
    lemma ChoiceRangeIsEffect(v: Tri)
      requires visible == Promoted(outside.prompt, tristate, outside.modules)
      requires revDep == Promoted(outside.reverse, tristate, outside.modules)
      ensures ChoiceInRange(v) <==> visible > revDep && SetTo(v) == v
      ensures visible != NO && hasUser && userTri == v ==> ChoiceBase() == SetTo(v)
    {
    }

    /** The value of a member that is not fully visible is the greatest of what counts: the user's setting
        as far as it is visible, or else the default; and the reverse dependency. */
    lemma PartialValueRule(i: nat, m: Member)
      requires i < |memberTristate| && Fits(outside, |memberTristate|) && m.visible != YES
      ensures var base := if m.visible == MOD && m.hasUser then (if m.userTri == NO then NO else MOD)
                          else outside.memberDefaults[i];
        var t := if base > m.revDep then base else m.revDep;
        PartialValue(i, m) == if memberTristate[i] && outside.modules != NO then t else if t == NO then NO else YES
    {
    }

    /** The value of the choice itself: what the user set, as far as it is visible, or what selects it. */
    lemma ChoiceBaseRule()
      ensures ChoiceBase() == NO <==>
        outside.reverse == NO && (outside.prompt == NO || !hasUser || userTri == NO)
      ensures ChoiceBase() == MOD <==>
        && tristate && outside.modules != NO && outside.reverse != YES
        && (if hasUser && userTri != NO && outside.prompt != NO then userTri == MOD || outside.prompt == MOD
            else outside.reverse == MOD)
    {
    }

    lemma MemberReverseRule(i: nat, c: Tri)
      requires Inv() && i < |members|
      ensures MemberReverse(i, c) == NO <==> outside.reverses[i] == NO
      ensures MemberReverse(i, c) == MOD <==>
        outside.reverses[i] == MOD && memberTristate[i] && outside.modules != NO && MemberVisible(i, c) != YES
    {
    }

    /** When a member is visible: while the choice is on and its own condition is; without modules, or if it
        is no tristate symbol, then fully, but as a member of a tristate choice only when that is y. */
    lemma MemberVisibleIff(i: nat, c: Tri)
      requires Inv() && i < |members|
      ensures MemberVisible(i, c) == NO <==>
        c == NO || outside.conds[i] == NO || (tristate && !memberTristate[i] && c == MOD)
      ensures MemberVisible(i, c) == MOD <==>
        memberTristate[i] && outside.modules != NO && c != NO && outside.conds[i] != NO
          && (c == MOD || outside.conds[i] == MOD)
    {
    }

    /** sym_set_tristate_value on a member. Setting one to y makes it the user's choice and takes the
        "new" mark from all visible members. */
    method SetMember(i: nat, v: Tri, o: Outside) returns (ok: bool)
      requires Inv() && i < |members| && Fits(o, |members|)
      modifies this
      ensures Inv() && |members| == |old(members)|
      ensures ok <==> old(members[i]).tri == v || old(WithinRange(i, v))
      ensures !ok ==> members == old(members) && userVal == old(userVal)
      ensures !ok ==> valid == old(valid) && outside == old(outside)
      ensures ok ==> userVal == if v == YES then Some(i) else old(userVal)
      ensures ok && old(members[i]).tri != v ==>
        !valid && outside == o && forall j :: 0 <= j < |members| ==> !members[j].valid
      ensures ok ==> forall j :: 0 <= j < |members| ==>
        && members[j].hasUser == (old(members[j]).hasUser || j == i || (v == YES && old(members[j]).visible != NO))
        && members[j].userTri == (if j == i then v else old(members[j]).userTri)
      ensures ok ==> hasUser == (old(hasUser) || v == YES) && userTri == old(userTri)
      ensures ok && old(members[i]).tri == v ==> valid == old(valid) && tri == old(tri) && val == old(val)
    {
      var oldval := members[i].tri;
      if oldval != v && !WithinRange(i, v) {
        return false;
      }
      RecordUser(i, v);
      if oldval != v {
        ClearAllValid(o);
      }
      ok := true;
    }

    /** The user value of a member, and what it means for its choice. */
    method RecordUser(i: nat, v: Tri)
      requires i < |members|
      modifies `members, `userVal, `hasUser
      ensures userVal == (if v == YES then Some(i) else old(userVal)) && hasUser == (old(hasUser) || v == YES)
      ensures |members| == |old(members)|
      ensures forall j :: 0 <= j < |members| ==>
        members[j] == old(members[j]).(
          hasUser := old(members[j]).hasUser || j == i || (v == YES && old(members[j]).visible != NO),
          userTri := if j == i then v else old(members[j]).userTri)
    {
      members := members[i := members[i].(hasUser := true)];
      if v == YES {
        userVal, hasUser := Some(i), true;
        MarkVisible();
      }
      members := members[i := members[i].(userTri := v)];
    }

    /** The loop of sym_set_tristate_value over the members of the choice. */
    method MarkVisible()
      modifies `members
      ensures |members| == |old(members)|
      ensures forall i :: 0 <= i < |members| ==>
        members[i] == old(members[i]).(hasUser := old(members[i]).hasUser || old(members[i]).visible != NO)
    {
      for i := 0 to |members|
        invariant |members| == |old(members)|
        invariant forall j :: 0 <= j < |members| ==>
          members[j] == if j < i then old(members[j]).(hasUser := old(members[j]).hasUser || old(members[j]).visible != NO)
                        else old(members[j])
      {
        if members[i].visible != NO {
          members := members[i := members[i].(hasUser := true)];
        }
      }
    }

    /** sym_tristate_within_range on the choice symbol. */
    predicate ChoiceInRange(v: Tri)
      reads this
    {
      var actsBoolean := !tristate || outside.modules == NO;
      visible != NO && !(actsBoolean && v == MOD) && visible > revDep && revDep <= v <= visible
    }

    /** sym_set_tristate_value on the choice symbol. */
    method SetChoice(v: Tri, o: Outside) returns (ok: bool)
      requires Inv() && Fits(o, |members|)
      modifies this
      ensures Inv() && |members| == |old(members)|
      ensures ok <==> old(tri) == v || old(ChoiceInRange(v))
      ensures !ok ==> members == old(members) && valid == old(valid) && outside == old(outside)
      ensures !ok ==> hasUser == old(hasUser) && userTri == old(userTri)
      ensures ok ==> userTri == v && hasUser && userVal == old(userVal)
      ensures ok && old(tri) != v ==> !valid && outside == o
      ensures ok && old(tri) == v ==> valid == old(valid) && members == old(members) && outside == old(outside)
    {
      var oldval := tri;
      if oldval != v && !ChoiceInRange(v) {
        return false;
      }
      hasUser := true;
      userTri := v;
      if oldval != v {
        ClearAllValid(o);
      }
      ok := true;
    }

    // ---------- runs ----------

    /** Every state reached by settings, clearings and calculations is exclusive. */
    method Run(ops: seq<Event>)
      requires Inv()
      modifies this
      ensures Inv() && Exclusive()
    {
      for n := 0 to |ops|
        invariant Inv()
      {
        match ops[n]
        case CalcC => CalcChoiceSymbol();
        case CalcM(i) => if i < |members| { CalcMember(i); }
        case Clear(o) => if Fits(o, |members|) { ClearAllValid(o); }
        case SetM(i, v, o) => if i < |members| && Fits(o, |members|) { var _ := SetMember(i, v, o); }
        case SetC(v, o) => if Fits(o, |members|) { var _ := SetChoice(v, o); }
      }
    }

    /** Choosing a member takes effect: once the change is accepted and the members are calculated,
        the chosen one is y if it is fully visible, and no other fully visible one is. */
    method ChooseAndCalc(i: nat, o: Outside) returns (ok: bool)
      requires Inv() && i < |members| && Fits(o, |members|) && members[i].tri != YES
      modifies this
      ensures Inv() && |members| == |old(members)|
      ensures ok && members[i].visible == YES ==> members[i].tri == YES
      ensures ok && members[i].visible == YES ==>
        forall j :: 0 <= j < |members| && j != i && members[j].valid && members[j].visible == YES ==> members[j].tri == NO
    {
      ok := SetMember(i, YES, o);
      CalcMember(i);
    }
  }

  datatype Event =
    | CalcC
    | CalcM(i: nat)
    | Clear(o: Outside)
    | SetM(i: nat, v: Tri, o: Outside)
    | SetC(v: Tri, o: Outside)
}
