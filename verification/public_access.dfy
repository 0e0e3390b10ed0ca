/**
 * Public-access rules of the back office: renaming a member group across every
 * access entry, and deciding whether a member may see protected content.
 *
 * An access entry holds rules; each rule has a type and a value. A member-role
 * rule grants access to the members of the group its value names; a
 * member-username rule grants access to the member its value names.
 */
module PublicAccess {
  import opened Wrappers

  /** Rule type of a rule naming a member (`Constants.Conventions.PublicAccess`). */
  const MemberUsernameRuleType := "MemberUsername"
  /** Rule type of a rule naming a member group. */
  const MemberRoleRuleType := "MemberRole"

  /** One access rule; a value of `None` is a rule whose value is null. */
  datatype RuleData = RuleData(ruleType: string, ruleValue: Option<string>)

  /** `s ?? String.Empty`. */
  function ValueOrEmpty(s: Option<string>): string
  {
    if s.Some? then s.value else ""
  }

  // ---------------------------------------------------------------------------
  // Renaming a member group
  // ---------------------------------------------------------------------------

  /** The rules the rename rewrites: member-role rules whose value is the old name. */
  predicate IsMatch(r: RuleData, oldRolename: Option<string>)
  {
    r.ruleType == MemberRoleRuleType && r.ruleValue == oldRolename
  }

  predicate AnyMatch(rules: seq<RuleData>, oldRolename: Option<string>)
  {
    exists k :: 0 <= k < |rules| && IsMatch(rules[k], oldRolename)
  }

  /** A matching rule gets the new name, or the empty string when the new name is null. */
  function RenameRule(r: RuleData, oldRolename: Option<string>, newRolename: Option<string>): RuleData
  {
    if IsMatch(r, oldRolename) then r.(ruleValue := Some(ValueOrEmpty(newRolename))) else r
  }

  /** The rules of one entry after the rename. */
  function RenameRules(rules: seq<RuleData>, oldRolename: Option<string>, newRolename: Option<string>): seq<RuleData>
  {
    seq(|rules|, k requires 0 <= k < |rules| => RenameRule(rules[k], oldRolename, newRolename))
  }

  /**
   * After a rename, no rule holds the old name any more, unless the new name is
   * null and the old one empty: `null ?? ""` writes the old value back.
   */
  lemma RenameClearsOldName(rules: seq<RuleData>, oldRolename: Option<string>, newRolename: Option<string>)
    requires oldRolename != Some(ValueOrEmpty(newRolename))
    ensures !AnyMatch(RenameRules(rules, oldRolename, newRolename), oldRolename)
  {
    var after := RenameRules(rules, oldRolename, newRolename);
    forall k | 0 <= k < |after| ensures !IsMatch(after[k], oldRolename) {
      assert after[k] == RenameRule(rules[k], oldRolename, newRolename);
    }
  }

  /** Rules that are not member-role rules holding the old name come out as they went in. */
  lemma RenameLeavesOtherRules(rules: seq<RuleData>, oldRolename: Option<string>, newRolename: Option<string>, k: nat)
    requires k < |rules|
    ensures |RenameRules(rules, oldRolename, newRolename)| == |rules|
    ensures RenameRules(rules, oldRolename, newRolename)[k].ruleType == rules[k].ruleType
    ensures !IsMatch(rules[k], oldRolename) ==> RenameRules(rules, oldRolename, newRolename)[k] == rules[k]
    ensures IsMatch(rules[k], oldRolename) ==>
              RenameRules(rules, oldRolename, newRolename)[k].ruleValue == Some(ValueOrEmpty(newRolename))
  {
  }

  /** Renaming twice with the same names changes nothing the first rename did not. */
  lemma RenameIsIdempotent(rules: seq<RuleData>, oldRolename: Option<string>, newRolename: Option<string>)
    requires oldRolename != Some(ValueOrEmpty(newRolename))
    ensures RenameRules(RenameRules(rules, oldRolename, newRolename), oldRolename, newRolename)
         == RenameRules(rules, oldRolename, newRolename)
  {
    var once := RenameRules(rules, oldRolename, newRolename);
    RenameClearsOldName(rules, oldRolename, newRolename);
    forall k | 0 <= k < |once| ensures RenameRule(once[k], oldRolename, newRolename) == once[k] {
      assert !IsMatch(once[k], oldRolename);
    }
  }

  /**
   * Renaming a group and renaming it back restores every rule, provided no rule
   * held the new name beforehand and neither name is null.
   */
  lemma RenameRoundTrip(rules: seq<RuleData>, oldRolename: string, newRolename: string)
    requires oldRolename != newRolename
    requires !AnyMatch(rules, Some(newRolename))
    ensures RenameRules(RenameRules(rules, Some(oldRolename), Some(newRolename)), Some(newRolename), Some(oldRolename))
         == rules
  {
    var there := RenameRules(rules, Some(oldRolename), Some(newRolename));
    var back := RenameRules(there, Some(newRolename), Some(oldRolename));
    forall k | 0 <= k < |rules| ensures back[k] == rules[k] {
      assert !IsMatch(rules[k], Some(newRolename));
      assert there[k] == RenameRule(rules[k], Some(oldRolename), Some(newRolename));
    }
  }

  /**
   * Renaming "" to null rewrites "" with "": the rules stay as they were, yet the
   * entry still counts as changed.
   */
  lemma EmptyToNullRewritesSameValue()
    ensures var rules := [RuleData(MemberRoleRuleType, Some(""))];
      AnyMatch(rules, Some("")) && RenameRules(rules, Some(""), None) == rules
  {
    var rules := [RuleData(MemberRoleRuleType, Some(""))];
    assert IsMatch(rules[0], Some(""));
    assert RenameRules(rules, Some(""), None)[0] == rules[0];
  }

  /** A public-access entry: the content node it protects and its rules. */
  datatype AccessEntry = AccessEntry(protectedNodeId: int, rules: seq<RuleData>)

  /** The entry with its rules renamed. */
  function RenameEntry(e: AccessEntry, oldRolename: Option<string>, newRolename: Option<string>): AccessEntry
  {
    e.(rules := RenameRules(e.rules, oldRolename, newRolename))
  }

  /**
   * The loop over one entry's rules: gives each matching rule the new name and
   * reports whether any rule matched.
   */
  method RenameRoleRules(rules: seq<RuleData>, oldRolename: Option<string>, newRolename: Option<string>)
    returns (renamed: seq<RuleData>, save: bool)
    ensures renamed == RenameRules(rules, oldRolename, newRolename)
    ensures save <==> AnyMatch(rules, oldRolename)
  {
    renamed := rules;
    save := false;
    var k := 0;
    while k < |renamed|
      invariant 0 <= k <= |renamed| == |rules|
      invariant forall m :: 0 <= m < k ==> renamed[m] == RenameRule(rules[m], oldRolename, newRolename)
      invariant forall m :: k <= m < |renamed| ==> renamed[m] == rules[m]
      invariant save <==> exists m :: 0 <= m < k && IsMatch(rules[m], oldRolename)
    {
      var rule := renamed[k];
      if rule.ruleType == MemberRoleRuleType && rule.ruleValue == oldRolename {
        renamed := renamed[k := rule.(ruleValue := Some(ValueOrEmpty(newRolename)))];
        save := true;
      }
      k := k + 1;
    }
  }

  /** The entries among the first `i` that hold a matching rule, in order, as the rename leaves them. */
  function ToSave(es: seq<AccessEntry>, oldRolename: Option<string>, newRolename: Option<string>, i: nat): seq<AccessEntry>
    requires i <= |es|
  {
    if i == 0 then []
    else
      ToSave(es, oldRolename, newRolename, i - 1)
        + if AnyMatch(es[i - 1].rules, oldRolename) then [RenameEntry(es[i - 1], oldRolename, newRolename)] else []
  }

  /** The positions among the first `i` whose entry holds a matching rule. */
  function MatchingPositions(es: seq<AccessEntry>, oldRolename: Option<string>, i: nat): set<nat>
    requires i <= |es|
  {
    set j: nat | j < i && AnyMatch(es[j].rules, oldRolename)
  }

  /**
   * Exactly the renamed forms of the entries with a matching rule are saved, one
   * save per matching entry; so something is saved iff some entry matched.
   */
  lemma {:induction false} ToSaveIsTheMatchingEntries(es: seq<AccessEntry>, oldRolename: Option<string>,
                                                      newRolename: Option<string>, i: nat)
    requires i <= |es|
    ensures forall e :: e in ToSave(es, oldRolename, newRolename, i) <==>
      exists j :: 0 <= j < i && AnyMatch(es[j].rules, oldRolename) && e == RenameEntry(es[j], oldRolename, newRolename)
    ensures ToSave(es, oldRolename, newRolename, i) != [] <==> exists j :: 0 <= j < i && AnyMatch(es[j].rules, oldRolename)
  {
    if i > 0 {
      ToSaveIsTheMatchingEntries(es, oldRolename, newRolename, i - 1);
      var s := ToSave(es, oldRolename, newRolename, i - 1);
      var last := if AnyMatch(es[i - 1].rules, oldRolename) then [RenameEntry(es[i - 1], oldRolename, newRolename)] else [];
      assert ToSave(es, oldRolename, newRolename, i) == s + last;
    }
  }

  /** One save per matching entry: as many saves as matching positions. */
  lemma {:induction false} OneSavePerMatchingEntry(es: seq<AccessEntry>, oldRolename: Option<string>,
                                                   newRolename: Option<string>, i: nat)
    requires i <= |es|
    ensures |ToSave(es, oldRolename, newRolename, i)| == |MatchingPositions(es, oldRolename, i)|
  {
    if i > 0 {
      OneSavePerMatchingEntry(es, oldRolename, newRolename, i - 1);
      var before := MatchingPositions(es, oldRolename, i - 1);
      assert i - 1 !in before;
      if AnyMatch(es[i - 1].rules, oldRolename) {
        assert MatchingPositions(es, oldRolename, i) == before + {i - 1};
      } else {
        assert MatchingPositions(es, oldRolename, i) == before;
      }
    } else {
      assert MatchingPositions(es, oldRolename, i) == {};
    }
  }

  /** The public-access service: its stored entries and the entries saved so far. */
  class PublicAccessService {
    /** The stored entries, in the order `GetAll` lists them. */
    var entries: seq<AccessEntry>
    /** Every `Save(entry)` call, in call order, with the entry as it was saved. */
    var saved: seq<AccessEntry>

    constructor (entries: seq<AccessEntry>)
      ensures this.entries == entries && saved == []
    {
      this.entries := entries;
      saved := [];
    }

    /**
     * `RenameMemberGroupRoleRules`: gives every member-role rule that names the old
     * group the new name (the empty string for null), saves each entry it changed,
     * in entry order, and reports whether any rule matched. Equal names change nothing.
     */
    method RenameMemberGroupRoleRules(oldRolename: Option<string>, newRolename: Option<string>) returns (hasChange: bool)
      modifies this
      ensures |entries| == |old(entries)|
      ensures forall j :: 0 <= j < |entries| ==>
                entries[j] == if oldRolename == newRolename then old(entries)[j]
                              else RenameEntry(old(entries)[j], oldRolename, newRolename)
      ensures saved == old(saved) + if oldRolename == newRolename then []
                                    else ToSave(old(entries), oldRolename, newRolename, |old(entries)|)
      ensures hasChange <==> oldRolename != newRolename &&
                             exists j :: 0 <= j < |old(entries)| && AnyMatch(old(entries)[j].rules, oldRolename)
    {
      if oldRolename == newRolename {
        return false;
      }
      hasChange := false;
      var i := 0;
      while i < |entries|
        invariant 0 <= i <= |entries| == |old(entries)|
        invariant forall j :: 0 <= j < i ==> entries[j] == RenameEntry(old(entries)[j], oldRolename, newRolename)
        invariant forall j :: i <= j < |entries| ==> entries[j] == old(entries)[j]
        invariant saved == old(saved) + ToSave(old(entries), oldRolename, newRolename, i)
        invariant hasChange <==> exists j :: 0 <= j < i && AnyMatch(old(entries)[j].rules, oldRolename)
      {
        var entry := entries[i];
        var renamed, save := RenameRoleRules(entry.rules, oldRolename, newRolename);
        entry := entry.(rules := renamed);
        entries := entries[i := entry];
        assert ToSave(old(entries), oldRolename, newRolename, i + 1)
            == ToSave(old(entries), oldRolename, newRolename, i) + if save then [entry] else [];
        if save {
          hasChange := true;
          saved := saved + [entry];
        }
        i := i + 1;
      }
    }
  }

  // ---------------------------------------------------------------------------
  // Deciding access
  // ---------------------------------------------------------------------------

  /** The exceptions the checks throw, with the parameter name they carry. */
  datatype AccessError = ArgumentNull(paramName: string) | Argument(paramName: string)

  /** Upper case of an ASCII letter; every other character is its own upper case. */
  function UpperAscii(c: char): char
  {
    if 'a' <= c <= 'z' then (c as int - 32) as char else c
  }

  /** `StringComparison.OrdinalIgnoreCase` over ASCII case folding. */
  predicate EqualsIgnoreCase(a: string, b: string)
  {
    |a| == |b| && forall i :: 0 <= i < |a| ==> UpperAscii(a[i]) == UpperAscii(b[i])
  }

  /** Case-insensitive equality is an equivalence, so a rule matches every spelling of its name. */
  lemma IgnoreCaseIsEquivalence(a: string, b: string, c: string)
    ensures EqualsIgnoreCase(a, a)
    ensures EqualsIgnoreCase(a, b) ==> EqualsIgnoreCase(b, a)
    ensures EqualsIgnoreCase(a, b) && EqualsIgnoreCase(b, c) ==> EqualsIgnoreCase(a, c)
  {
  }

  /** A rule grants access to the member: by its username, ignoring case, or by one of its groups. */
  predicate Grants(r: RuleData, username: string, roles: seq<Option<string>>)
  {
    || (r.ruleType == MemberUsernameRuleType && r.ruleValue.Some? && EqualsIgnoreCase(username, r.ruleValue.value))
    || (r.ruleType == MemberRoleRuleType && r.ruleValue in roles)
  }

  /** `entry.Rules.Any(…)`, walked rule by rule. */
  function AnyGrants(rules: seq<RuleData>, username: string, roles: seq<Option<string>>): (b: bool)
    ensures b <==> exists k :: 0 <= k < |rules| && Grants(rules[k], username, roles)
  {
    if rules == [] then false
    else if Grants(rules[0], username, roles) then true
    else
      var b := AnyGrants(rules[1..], username, roles);
      assert b <==> exists k :: 1 <= k < |rules| && Grants(rules[k], username, roles) by {
        forall k | 1 <= k < |rules| ensures rules[k] == rules[1..][k - 1] { }
      }
      b
  }

  /**
   * The private `HasAccess(entry, username, roles)`: rejects a null entry, a null or
   * empty username and null roles, in that order; otherwise some rule must grant access.
   * `entry` is the entry's rules, or `None` for a null entry.
   */
  function CheckRules(entry: Option<seq<RuleData>>, username: Option<string>, roles: Option<seq<Option<string>>>)
    : (r: Result<bool, AccessError>)
    ensures entry.None? <==> r == Err(ArgumentNull("entry"))
    ensures entry.Some? && (username.None? || username.value == "") <==> r == Err(Argument("username"))
    ensures entry.Some? && username.Some? && username.value != "" && roles.None? <==> r == Err(ArgumentNull("roles"))
    ensures r.Ok? <==> entry.Some? && username.Some? && username.value != "" && roles.Some?
    ensures r.Ok? ==> (r.value <==> exists k :: 0 <= k < |entry.value| && Grants(entry.value[k], username.value, roles.value))
  {
    if entry.None? then Err(ArgumentNull("entry"))
    else if username.None? || username.value == "" then Err(Argument("username"))
    else if roles.None? then Err(ArgumentNull("roles"))
    else Ok(AnyGrants(entry.value, username.value, roles.value))
  }

  /** Being in more groups never takes access away. */
  lemma MoreRolesKeepAccess(rules: seq<RuleData>, username: string, roles: seq<Option<string>>, more: seq<Option<string>>)
    requires forall x :: x in roles ==> x in more
    requires CheckRules(Some(rules), Some(username), Some(roles)) == Ok(true)
    ensures CheckRules(Some(rules), Some(username), Some(more)) == Ok(true)
  {
    var k :| 0 <= k < |rules| && Grants(rules[k], username, roles);
    assert Grants(rules[k], username, more);
  }

  /** Only the case-folded username matters: another spelling of it gets the same answer. */
  lemma UsernameCaseDoesNotMatter(rules: seq<RuleData>, username: string, other: string, roles: seq<Option<string>>)
    requires EqualsIgnoreCase(username, other)
    ensures CheckRules(Some(rules), Some(username), Some(roles)) == CheckRules(Some(rules), Some(other), Some(roles))
  {
    forall k | 0 <= k < |rules| ensures Grants(rules[k], username, roles) <==> Grants(rules[k], other, roles) {
      if rules[k].ruleValue.Some? {
        IgnoreCaseIsEquivalence(username, other, rules[k].ruleValue.value);
        IgnoreCaseIsEquivalence(other, username, rules[k].ruleValue.value);
      }
    }
  }

  /**
   * `HasAccess(documentId, …)`: grants access when no content has that id or the
   * content has no access entry; otherwise the entry's rules decide. The content
   * lookup and the entry lookup are given as their results.
   */
  function HasAccessToDocument(contentFound: bool, entry: Option<seq<RuleData>>, username: Option<string>,
                               roles: Option<seq<Option<string>>>): (r: Result<bool, AccessError>)
    ensures !contentFound || entry.None? ==> r == Ok(true)
    ensures contentFound && entry.Some? ==> r == CheckRules(entry, username, roles)
  {
    if !contentFound then Ok(true)
    else if entry.None? then Ok(true)
    else CheckRules(entry, username, roles)
  }

  /** The ASCII white-space characters: space, and tab through carriage return. */
  predicate IsWhiteSpace(c: char)
  {
    c == ' ' || '\t' <= c <= '\r'
  }

  /** `string.IsNullOrWhiteSpace`, over the ASCII white-space characters. */
  predicate IsNullOrWhiteSpace(s: Option<string>)
  {
    s.None? || forall i :: 0 <= i < |s.value| ==> IsWhiteSpace(s.value[i])
  }

  /**
   * `HasAccessAsync(path, username, rolesCallback)`: rejects a null callback (naming
   * "roles"), a blank username and a blank path, in that order, before any lookup;
   * grants access when the path has no entry; otherwise the entry's rules decide
   * against the roles the callback yields. `entry` is the lookup's result and `roles`
   * the callback's.
   */
  function HasAccessAsync(path: Option<string>, username: Option<string>, hasCallback: bool,
                          entry: Option<seq<RuleData>>, roles: Option<seq<Option<string>>>): (r: Result<bool, AccessError>)
    ensures !hasCallback ==> r == Err(ArgumentNull("roles"))
    ensures hasCallback && IsNullOrWhiteSpace(username) ==> r == Err(Argument("username"))
    ensures hasCallback && !IsNullOrWhiteSpace(username) && IsNullOrWhiteSpace(path) ==> r == Err(Argument("path"))
    ensures hasCallback && !IsNullOrWhiteSpace(username) && !IsNullOrWhiteSpace(path) ==>
              r == if entry.None? then Ok(true) else CheckRules(entry, username, roles)
  {
    if !hasCallback then Err(ArgumentNull("roles"))
    else if IsNullOrWhiteSpace(username) then Err(Argument("username"))
    else if IsNullOrWhiteSpace(path) then Err(Argument("path"))
    else if entry.None? then Ok(true)
    else CheckRules(entry, username, roles)
  }

  /** Invalid arguments are reported whatever the lookup and the callback would have returned. */
  lemma ValidationPrecedesLookup(path: Option<string>, username: Option<string>, hasCallback: bool,
                                 entry: Option<seq<RuleData>>, roles: Option<seq<Option<string>>>,
                                 entry': Option<seq<RuleData>>, roles': Option<seq<Option<string>>>)
    requires !hasCallback || IsNullOrWhiteSpace(username) || IsNullOrWhiteSpace(path)
    ensures HasAccessAsync(path, username, hasCallback, entry, roles).Err?
    ensures HasAccessAsync(path, username, hasCallback, entry, roles)
         == HasAccessAsync(path, username, hasCallback, entry', roles')
  {
  }

  /**
   * The checks differ between the overloads: a blank username is rejected by
   * `HasAccessAsync` but reaches the rules through `HasAccess(documentId, …)`,
   * and with no content even a null username gets access.
   */
  lemma BlankUsernameChecksDiffer(rules: seq<RuleData>, roles: seq<Option<string>>)
    ensures HasAccessAsync(Some("/a"), Some(" "), true, Some(rules), Some(roles)) == Err(Argument("username"))
    ensures HasAccessToDocument(true, Some(rules), Some(" "), Some(roles)).Ok?
    ensures HasAccessToDocument(false, Some(rules), None, None) == Ok(true)
  {
    assert !IsWhiteSpace("/a"[0]);
  }
}
