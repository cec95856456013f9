/**
 * The text-record codec of utils/file_operations.py. Each operation of the source reads the
 * whole local file, applies one `str` transform and writes the whole result back; here the
 * read and the write are stripped off and every operation takes the document text and returns
 * the new text or the value read.
 *
 * Two document formats:
 *   - role assignments: a `Roles:` block of ` - <role>` lines and a `Members:` block of
 *     ` - <id>@steam: <role>` lines;
 *   - membership sets (whitelist, reserved slots): one `<id>@steam` token per line.
 */
module FileOperations {
  import opened Wrappers
  import opened Text

  const MembersHeader := "Members:\n"
  const RolesMarker := "Roles:"
  /** A blank line, which ends the `Roles:` block. */
  const BlankLine := "\n\n"
  /** The two characters backslash and `n` (not a newline), where `get_role` cuts the role. */
  const EscapedNewline := "\\n"

  /** `<id>@steam`: how both formats write a player. */
  function Token(steamid: string): string
  {
    steamid + "@steam"
  }

  /** `<id>@steam: `: what precedes the role on a Members line. */
  function RoleMarker(steamid: string): string
  {
    steamid + "@steam: "
  }

  /** ` - <id>@steam: <role>`: a Members entry, without its line break. */
  function MemberEntry(steamid: string, role: string): string
  {
    " - " + RoleMarker(steamid) + role
  }

  /** A Members entry with its line break, as `add_role` writes it and `remove_role` deletes it. */
  function MemberLine(steamid: string, role: string): string
  {
    MemberEntry(steamid, role) + "\n"
  }

  // ---------------------------------------------------------------------------
  // get_role
  // ---------------------------------------------------------------------------

  /** `line.split(id + "@steam: ")[1].split("\\n")[0]`: the `[1]` raises when the marker is absent. */
  function RoleOnLine(line: string, steamid: string): (r: Result<string>)
    ensures r.Err? <==> !Contains(line, RoleMarker(steamid))
  {
    SplitSingle(line, RoleMarker(steamid));
    var parts := Split(line, RoleMarker(steamid));
    if |parts| < 2 then Err(IndexError) else Ok(Split(parts[1], EscapedNewline)[0])
  }

  /** The role read from a line, as `get_role` returns it. */
  function AsFound(r: Result<string>): Result<Option<string>>
  {
    match r
    case Ok(role) => Ok(Some(role))
    case Err(e) => Err(e)
  }

  /** What `get_role` returns for these lines: decided by the first line that mentions the ID. */
  function FindRole(lines: seq<string>, steamid: string): (r: Result<Option<string>>)
    ensures r == Ok(None) <==> !AnyLineContains(lines, steamid)
  {
    if lines == [] then Ok(None)
    else if Contains(lines[0], steamid) then AsFound(RoleOnLine(lines[0], steamid))
    else FindRole(lines[1..], steamid)
  }

  /** `get_role`: scan the lines, and on the first that contains the ID return the role it carries. */
  method GetRole(steamid: string, text: string) returns (r: Result<Option<string>>)
    ensures r == FindRole(Lines(text), steamid)
  {
    var lines := Lines(text);
    var i := 0;
    while i < |lines|
      invariant 0 <= i <= |lines|
      invariant FindRole(lines, steamid) == FindRole(lines[i..], steamid)
    {
      assert lines[i..][0] == lines[i] && lines[i..][1..] == lines[i + 1..];
      if Contains(lines[i], steamid) {
        r := AsFound(RoleOnLine(lines[i], steamid));
        return;
      }
      i := i + 1;
    }
    r := Ok(None);
  }

  /**
   * The role on a line is what follows the first `<id>@steam: `, up to the first escaped
   * newline or the next marker; the call raises exactly when the line has no marker.
   */
  lemma RoleOnLineSpec(line: string, steamid: string)
    ensures RoleOnLine(line, steamid).Err? <==> !Contains(line, RoleMarker(steamid))
    ensures RoleOnLine(line, steamid).Ok? ==>
      var m := RoleMarker(steamid);
      var after := line[Find(line, m) + |m|..];
      var role := RoleOnLine(line, steamid).value;
      && role <= after && !Contains(role, EscapedNewline) && !Contains(role, m)
      && (role == after || OccursAt(after, EscapedNewline, |role|) || OccursAt(after, m, |role|))
      && (forall j: nat :: j < |role| ==> !OccursAt(after, m, j))
      && ((steamid == [] || IsDigit(steamid[0])) ==> forall j: nat :: j < |role| ==> !OccursAt(after, EscapedNewline, j))
  {
    SplitSingle(line, RoleMarker(steamid));
    if Contains(line, RoleMarker(steamid)) {
      SegmentAfter(line, RoleMarker(steamid), EscapedNewline);
    }
  }

  /** For an ID starting with a digit, those clauses pin the role read from the line. */
  lemma RoleDetermined(line: string, steamid: string, r: string)
    requires Contains(line, RoleMarker(steamid)) && (steamid == [] || IsDigit(steamid[0]))
    requires var m := RoleMarker(steamid);
      var after := line[Find(line, m) + |m|..];
      && r <= after
      && (r == after || OccursAt(after, EscapedNewline, |r|) || OccursAt(after, m, |r|))
      && forall j: nat :: j < |r| ==> !OccursAt(after, EscapedNewline, j) && !OccursAt(after, m, j)
    ensures RoleOnLine(line, steamid) == Ok(r)
  {
    RoleOnLineSpec(line, steamid);
    var role := RoleOnLine(line, steamid).value;
    var m := RoleMarker(steamid);
    var after := line[Find(line, m) + |m|..];
    assert |r| == |role|;
    assert r == after[..|r|] == role;
  }

  /** `get_role` returns None exactly when no line contains the ID. */
  lemma FindRoleNone(lines: seq<string>, steamid: string)
    ensures FindRole(lines, steamid) == Ok(None) <==>
      forall k :: 0 <= k < |lines| ==> !Contains(lines[k], steamid)
  {
    AnyLineContainsIff(lines, steamid);
  }

  /** A document that does not mention an ID has no line that mentions it. */
  lemma NoLineMentions(text: string, id: string)
    requires id != [] && !Contains(text, id)
    ensures FindRole(Lines(text), id) == Ok(None)
  {
    LinesAvoid(text, id);
    FindRoleNone(Lines(text), id);
  }

  /** Otherwise the first line that contains the ID decides the result. */
  lemma {:induction false} FindRoleFirst(lines: seq<string>, steamid: string, k: nat)
    requires k < |lines| && Contains(lines[k], steamid)
    requires forall j :: 0 <= j < k ==> !Contains(lines[j], steamid)
    ensures FindRole(lines, steamid) == AsFound(RoleOnLine(lines[k], steamid))
  {
    if k > 0 {
      assert lines[1..][k - 1] == lines[k];
      FindRoleFirst(lines[1..], steamid, k - 1);
    }
  }

  /** Lines that do not mention the ID are skipped over. */
  lemma {:induction false} FindRoleSkip(a: seq<string>, b: seq<string>, steamid: string)
    requires forall k :: 0 <= k < |a| ==> !Contains(a[k], steamid)
    ensures FindRole(a + b, steamid) == FindRole(b, steamid)
  {
    if a != [] {
      assert (a + b)[0] == a[0] && (a + b)[1..] == a[1..] + b;
      FindRoleSkip(a[1..], b, steamid);
    } else {
      assert a + b == b;
    }
  }

  // ---------------------------------------------------------------------------
  // get_roles and contains_role
  // ---------------------------------------------------------------------------

  /**
   * `get_roles`: the text after the first `Roles:` (up to a second `Roles:`), cut before the
   * first blank line; indexing `[1]` raises when there is no `Roles:`.
   */
  function GetRoles(text: string): (r: Result<string>)
    ensures r.Err? <==> !Contains(text, RolesMarker)
  {
    SplitSingle(text, RolesMarker);
    var sections := Split(text, RolesMarker);
    if |sections| < 2 then Err(IndexError)
    else
      var rolesSection := sections[1];
      if Contains(rolesSection, BlankLine) then Ok(Split(rolesSection, BlankLine)[0])
      else Ok(rolesSection)
  }

  /** The roles block: where it starts, where it stops, and when it cannot be read. */
  lemma GetRolesSpec(text: string)
    ensures GetRoles(text).Err? <==> !Contains(text, RolesMarker)
    ensures GetRoles(text).Ok? ==>
      var after := text[Find(text, RolesMarker) + |RolesMarker|..];
      var block := GetRoles(text).value;
      && block <= after && !Contains(block, BlankLine) && !Contains(block, RolesMarker)
      && (block == after || OccursAt(after, BlankLine, |block|) || OccursAt(after, RolesMarker, |block|))
      && forall j: nat :: j < |block| ==> !OccursAt(after, BlankLine, j) && !OccursAt(after, RolesMarker, j)
  {
    SplitSingle(text, RolesMarker);
    if Contains(text, RolesMarker) {
      SegmentAfter(text, RolesMarker, BlankLine);
      SplitSingle(Split(text, RolesMarker)[1], BlankLine);
    }
  }

  /**
   * Those clauses pin the block: any prefix of the text after `Roles:` that stops at a blank
   * line, a second `Roles:` or the end, with neither starting earlier, is the block.
   */
  lemma RolesBlockDetermined(text: string, b: string)
    requires Contains(text, RolesMarker)
    requires var after := text[Find(text, RolesMarker) + |RolesMarker|..];
      && b <= after
      && (b == after || OccursAt(after, BlankLine, |b|) || OccursAt(after, RolesMarker, |b|))
      && forall j: nat :: j < |b| ==> !OccursAt(after, BlankLine, j) && !OccursAt(after, RolesMarker, j)
    ensures GetRoles(text) == Ok(b)
  {
    GetRolesSpec(text);
    var block := GetRoles(text).value;
    var after := text[Find(text, RolesMarker) + |RolesMarker|..];
    assert |b| == |block|;
    assert b == after[..|b|] == block;
  }

  /** Python's `any(pat in line for line in lines)`. */
  function AnyLineContains(lines: seq<string>, pat: string): bool
  {
    lines != [] && (Contains(lines[0], pat) || AnyLineContains(lines[1..], pat))
  }

  lemma {:induction false} AnyLineContainsIff(lines: seq<string>, pat: string)
    ensures AnyLineContains(lines, pat) <==> exists k :: 0 <= k < |lines| && Contains(lines[k], pat)
  {
    if lines != [] {
      AnyLineContainsIff(lines[1..], pat);
      if exists k :: 0 <= k < |lines| && Contains(lines[k], pat) {
        var k :| 0 <= k < |lines| && Contains(lines[k], pat);
        if k > 0 {
          assert lines[1..][k - 1] == lines[k];
        }
      }
      if AnyLineContains(lines[1..], pat) {
        var k :| 0 <= k < |lines[1..]| && Contains(lines[1..][k], pat);
        assert lines[k + 1] == lines[1..][k];
      }
    }
  }

  /** `contains_role`: some line of the roles block contains ` - <role>` as a substring. */
  function ContainsRole(role: string, text: string): (r: Result<bool>)
    ensures r.Err? <==> !Contains(text, RolesMarker)
  {
    match GetRoles(text)
    case Err(e) => Err(e)
    case Ok(roles) => Ok(AnyLineContains(Lines(roles), " - " + role))
  }

  /**
   * For a role name without a line break, checking line by line is the same as looking for
   * ` - <role>` anywhere in the roles block; it raises exactly when `get_roles` does.
   */
  lemma ContainsRoleSpec(role: string, text: string)
    requires '\n' !in role
    ensures ContainsRole(role, text).Err? <==> !Contains(text, RolesMarker)
    ensures ContainsRole(role, text).Ok? ==>
      (ContainsRole(role, text).value <==> Contains(GetRoles(text).value, " - " + role))
  {
    GetRolesSpec(text);
    if GetRoles(text).Ok? {
      var roles := GetRoles(text).value;
      var pat := " - " + role;
      assert '\n' !in pat by { assert pat[3..] == role; }
      AnyLineContainsIff(Lines(roles), pat);
      if Contains(roles, pat) {
        ContainsInSomePart(roles, '\n', pat);
      }
      if AnyLineContains(Lines(roles), pat) {
        var k :| 0 <= k < |Lines(roles)| && Contains(Lines(roles)[k], pat);
        SplitPartContained(roles, "\n", k, pat);
      }
    }
  }

  /**
   * The check is a substring match, not line equality: when a role is accepted, so is every
   * prefix of its name.
   */
  lemma ContainsRolePrefix(role: string, suffix: string, text: string)
    requires ContainsRole(role + suffix, text) == Ok(true)
    ensures ContainsRole(role, text) == Ok(true)
  {
    var lines := Lines(GetRoles(text).value);
    assert " - " + (role + suffix) == " - " + role + suffix;
    assert AnyLineContains(lines, " - " + role + suffix);
    AnyLineContainsIff(lines, " - " + role + suffix);
    AnyLineContainsIff(lines, " - " + role);
    var k :| 0 <= k < |lines| && Contains(lines[k], " - " + role + suffix);
    assert (" - " + role + suffix)[..|" - " + role|] == " - " + role;
    OccursContains(" - " + role + suffix, " - " + role, 0);
    ContainsTrans(lines[k], " - " + role + suffix, " - " + role);
  }

  // ---------------------------------------------------------------------------
  // add_role, change_role, remove_role
  // ---------------------------------------------------------------------------

  /** `add_role`: put a new Members line right after every `Members:\n` header. */
  function AddRole(text: string, steamid: string, role: string): (r: string)
    ensures r != text <==> Contains(text, MembersHeader)
    ensures |r| >= |text|
  {
    ReplaceChanges(text, MembersHeader, MembersHeader + MemberLine(steamid, role));
    ReplaceAll(text, MembersHeader, MembersHeader + MemberLine(steamid, role))
  }

  /**
   * Without a header the text is unchanged; with exactly one, the new line sits right after it
   * and everything else is kept byte for byte.
   */
  lemma AddRoleSpec(text: string, steamid: string, role: string)
    ensures !Contains(text, MembersHeader) ==> AddRole(text, steamid, role) == text
    ensures OccursOnce(text, MembersHeader) ==>
      var i := Find(text, MembersHeader);
      AddRole(text, steamid, role) == text[..i] + MembersHeader + MemberLine(steamid, role) + text[i + |MembersHeader|..]
  {
    if OccursOnce(text, MembersHeader) {
      ReplaceOnce(text, MembersHeader, MembersHeader + MemberLine(steamid, role));
    }
  }

  /** With several headers, every one of them gets the new line. */
  lemma AddRoleAfterEveryHeader(text: string, steamid: string, role: string)
    ensures AddRole(text, steamid, role) == Join(Split(text, MembersHeader), MembersHeader + MemberLine(steamid, role))
  {
    ReplaceIsJoinSplit(text, MembersHeader, MembersHeader + MemberLine(steamid, role));
  }

  /** `change_role`: replace every `<id>@steam: <old>` with `<id>@steam: <new>`. */
  function ChangeRole(text: string, steamid: string, oldRole: string, role: string): (r: string)
    ensures !Contains(text, RoleMarker(steamid) + oldRole) ==> r == text
    ensures Contains(text, RoleMarker(steamid) + oldRole) && |oldRole| != |role| ==> r != text
    ensures |oldRole| == |role| ==> |r| == |text|
  {
    ReplaceChanges(text, RoleMarker(steamid) + oldRole, RoleMarker(steamid) + role);
    ReplaceAll(text, RoleMarker(steamid) + oldRole, RoleMarker(steamid) + role)
  }

  /** `remove_role`: delete every ` - <id>@steam: <role>\n`. */
  function RemoveRole(text: string, steamid: string, role: string): (r: string)
    ensures r == text <==> !Contains(text, MemberLine(steamid, role))
    ensures r != text ==> |r| < |text|
  {
    ReplaceChanges(text, MemberLine(steamid, role), "");
    ReplaceAll(text, MemberLine(steamid, role), "")
  }

  /** `<id>@steam: <role>` has no line break when the ID is digits and the role has none. */
  lemma MarkerNoBreak(steamid: string, role: string)
    requires AllDigits(steamid) && '\n' !in role
    ensures '\n' !in RoleMarker(steamid) + role
  {
    var m := RoleMarker(steamid) + role;
    forall t | 0 <= t < |m|
      ensures m[t] != '\n'
    {
      if t < |steamid| {
        assert m[t] == steamid[t];
      } else if t >= |steamid| + 8 {
        assert m[t] == role[t - |steamid| - 8];
      }
    }
  }

  /** Changing a role in place keeps the number of lines, when neither role has a line break. */
  lemma ChangeRoleKeepsLineCount(text: string, steamid: string, oldRole: string, role: string)
    requires AllDigits(steamid) && '\n' !in oldRole && '\n' !in role
    ensures |Lines(ChangeRole(text, steamid, oldRole, role))| == |Lines(text)|
  {
    MarkerNoBreak(steamid, oldRole);
    MarkerNoBreak(steamid, role);
    ReplaceKeepsCount(text, RoleMarker(steamid) + oldRole, RoleMarker(steamid) + role, '\n');
    SplitCharCount(text, '\n');
    SplitCharCount(ChangeRole(text, steamid, oldRole, role), '\n');
  }

  // ---------------------------------------------------------------------------
  // add_miscellaneous, remove_miscellaneous, in_miscellaneous
  // ---------------------------------------------------------------------------

  /** `in_miscellaneous`: plain substring containment of the ID, anchored to no line. */
  function InMiscellaneous(text: string, steamid: string): (present: bool)
    ensures present <==> exists i: nat :: OccursAt(text, steamid, i)
  {
    ContainsIff(text, steamid);
    Contains(text, steamid)
  }

  /** `add_miscellaneous`: append a line break and the token; the old text is a prefix. */
  function AddMiscellaneous(text: string, steamid: string): (r: string)
    ensures text <= r && InMiscellaneous(r, steamid)
  {
    var r := text + "\n" + Token(steamid);
    assert r[|text| + 1..|text| + 1 + |steamid|] == steamid;
    OccursContains(r, steamid, |text| + 1);
    r
  }

  /** `remove_miscellaneous`: delete every `\n<id>@steam`. */
  function RemoveMiscellaneous(text: string, steamid: string): (r: string)
    ensures r == text <==> !Contains(text, "\n" + Token(steamid))
    ensures r != text ==> |r| < |text|
  {
    ReplaceChanges(text, "\n" + Token(steamid), "");
    ReplaceAll(text, "\n" + Token(steamid), "")
  }

  /**
   * A token on the very first line has no line break before it, so it is not removed and the
   * ID is still found afterwards.
   */
  lemma FirstLineTokenStays(steamid: string, rest: string)
    requires AllDigits(steamid)
    requires !Contains(rest, "\n" + Token(steamid))
    ensures RemoveMiscellaneous(Token(steamid) + rest, steamid) == Token(steamid) + rest
    ensures InMiscellaneous(RemoveMiscellaneous(Token(steamid) + rest, steamid), steamid)
  {
    var token := Token(steamid);
    var text := token + rest;
    var pat := "\n" + token;
    assert text[..|steamid|] == steamid;
    OccursContains(text, steamid, 0);
    // No line break inside the token, so the pattern cannot start before `rest` does.
    forall j: nat | j < |token|
      ensures !OccursAt(text, pat, j)
    {
      assert text[j] == token[j] != '\n';
      if j + |pat| <= |text| {
        assert text[j..j + |pat|][0] == text[j];
      }
    }
    NotContainsConcat(token, rest, pat);
  }

  // ---------------------------------------------------------------------------
  // get_users: `re.search(r"(\d+@steam): (\w+)", line)` on every line
  // ---------------------------------------------------------------------------

  predicate AllWordChars(s: string)
  {
    forall i :: 0 <= i < |s| ==> IsWordChar(s[i])
  }

  /** A dictionary key of `get_users`: one or more digits followed by `@steam`. */
  predicate IsUserKey(k: string)
  {
    |k| > 6 && AllDigits(k[..|k| - 6]) && k[|k| - 6..] == "@steam"
  }

  /** A role as `get_users` captures it: one or more word characters. */
  predicate IsRoleWord(v: string)
  {
    v != [] && AllWordChars(v)
  }

  /** The end of the longest run of digits starting at `i`. */
  function DigitRunEnd(s: string, i: nat): (e: nat)
    requires i <= |s|
    ensures i <= e <= |s| && AllDigits(s[i..e]) && (e == |s| || !IsDigit(s[e]))
    decreases |s| - i
  {
    if i < |s| && IsDigit(s[i]) then
      var e := DigitRunEnd(s, i + 1);
      assert s[i..e] == [s[i]] + s[i + 1..e];
      e
    else i
  }

  /** The end of the longest run of word characters starting at `i`. */
  function WordRunEnd(s: string, i: nat): (e: nat)
    requires i <= |s|
    ensures i <= e <= |s| && AllWordChars(s[i..e]) && (e == |s| || !IsWordChar(s[e]))
    decreases |s| - i
  {
    if i < |s| && IsWordChar(s[i]) then
      var e := WordRunEnd(s, i + 1);
      assert s[i..e] == [s[i]] + s[i + 1..e];
      e
    else i
  }

  /**
   * The regular expression read literally: `k` digits, `@steam: `, then `w` word characters,
   * starting at index `i`.
   */
  predicate MatchesWith(s: string, i: nat, k: nat, w: nat)
  {
    1 <= k && 1 <= w && i + k + 8 + w <= |s|
    && AllDigits(s[i..i + k]) && s[i + k..i + k + 8] == "@steam: "
    && AllWordChars(s[i + k + 8..i + k + 8 + w])
  }

  /** A match starts at `i`: the maximal digit run there is followed by `@steam: ` and a word character. */
  predicate MatchAt(s: string, i: nat)
  {
    i < |s| && IsDigit(s[i]) &&
    var e := DigitRunEnd(s, i);
    e + 9 <= |s| && s[e..e + 8] == "@steam: " && IsWordChar(s[e + 8])
  }

  /**
   * `MatchAt` agrees with the literal reading of the pattern, and the groups it takes are the
   * ones a backtracking matcher takes: the only possible digit run and the longest word run.
   */
  lemma MatchAtIff(s: string, i: nat)
    ensures MatchAt(s, i) ==> i < |s| && MatchesWith(s, i, DigitRunEnd(s, i) - i, WordRunEnd(s, DigitRunEnd(s, i) + 8) - DigitRunEnd(s, i) - 8)
    ensures forall k: nat, w: nat :: MatchesWith(s, i, k, w) ==>
      MatchAt(s, i) && i + k == DigitRunEnd(s, i) && i + k + 8 + w <= WordRunEnd(s, i + k + 8)
  {
    if MatchAt(s, i) {
      var e := DigitRunEnd(s, i);
      var f := WordRunEnd(s, e + 8);
      assert s[e + 8] == s[e + 8..f][0];
    }
    forall k: nat, w: nat | MatchesWith(s, i, k, w)
      ensures MatchAt(s, i) && i + k == DigitRunEnd(s, i) && i + k + 8 + w <= WordRunEnd(s, i + k + 8)
    {
      MatchesWithGroups(s, i, k, w);
    }
  }

  /** Any literal match at `i` has the maximal digit run as its first group and ends inside the longest word run. */
  lemma MatchesWithGroups(s: string, i: nat, k: nat, w: nat)
    requires MatchesWith(s, i, k, w)
    ensures MatchAt(s, i) && i + k == DigitRunEnd(s, i) && i + k + 8 + w <= WordRunEnd(s, i + k + 8)
  {
    assert s[i] == s[i..i + k][0];
    DigitRunCovers(s, i, i + k);
    assert s[i + k] == s[i + k..i + k + 8][0];
    var e := DigitRunEnd(s, i);
    assert e == i + k;
    assert s[e + 8] == s[e + 8..e + 8 + w][0];
    WordRunCovers(s, e + 8, e + 8 + w);
  }

  /** A run of digits from `i` to `j` lies inside the maximal one. */
  lemma {:induction false} DigitRunCovers(s: string, i: nat, j: nat)
    requires i <= j <= |s| && AllDigits(s[i..j])
    ensures j <= DigitRunEnd(s, i)
    decreases j - i
  {
    if i < j {
      assert s[i] == s[i..j][0];
      assert s[i + 1..j] == s[i..j][1..];
      DigitRunCovers(s, i + 1, j);
    }
  }

  /** A run of word characters from `i` to `j` lies inside the maximal one. */
  lemma {:induction false} WordRunCovers(s: string, i: nat, j: nat)
    requires i <= j <= |s| && AllWordChars(s[i..j])
    ensures j <= WordRunEnd(s, i)
    decreases j - i
  {
    if i < j {
      assert s[i] == s[i..j][0];
      assert s[i + 1..j] == s[i..j][1..];
      WordRunCovers(s, i + 1, j);
    }
  }

  /** `re.search`: the leftmost index at `i` or later where a match starts. */
  function SearchFrom(s: string, i: nat): (r: Option<nat>)
    ensures r.Some? ==> i <= r.value && MatchAt(s, r.value)
    ensures r.Some? ==> forall j: nat :: i <= j < r.value ==> !MatchAt(s, j)
    ensures r.None? ==> forall j: nat :: i <= j ==> !MatchAt(s, j)
    decreases |s| - i
  {
    if i >= |s| then None
    else if MatchAt(s, i) then Some(i)
    else SearchFrom(s, i + 1)
  }

  /** The first group of a match at `i`: the digit run and `@steam`. */
  function KeyAt(line: string, i: nat): (key: string)
    requires MatchAt(line, i)
    ensures IsUserKey(key)
  {
    var e := DigitRunEnd(line, i);
    var key := line[i..e + 6];
    assert key[..|key| - 6] == line[i..e];
    assert key[|key| - 6..] == line[e..e + 8][..6];
    key
  }

  /** The second group of a match at `i`: the longest word run after `@steam: `. */
  function ValueAt(line: string, i: nat): (value: string)
    requires MatchAt(line, i)
    ensures IsRoleWord(value)
  {
    var e := DigitRunEnd(line, i);
    var value := line[e + 8..WordRunEnd(line, e + 8)];
    assert line[e + 8] == value[0];
    value
  }

  /** The two groups, with `: ` between them, are a piece of the line. */
  lemma MatchGroupsContained(line: string, i: nat)
    requires MatchAt(line, i)
    ensures Contains(line, KeyAt(line, i) + ": " + ValueAt(line, i))
  {
    var e := DigitRunEnd(line, i);
    var f := WordRunEnd(line, e + 8);
    var key, value := KeyAt(line, i), ValueAt(line, i);
    assert line[e + 6..e + 8] == ": " by {
      assert line[e + 6..e + 8] == line[e..e + 8][6..];
    }
    assert line[i..f] == key + ": " + value by {
      assert key == line[i..e + 6] && value == line[e + 8..f];
      SliceInThree(line, i, e + 6, e + 8, f);
    }
    OccursContains(line, line[i..f], i);
  }

  /** The two groups of the first match on a line, or `None` when the line has no match. */
  function UserMatch(line: string): (r: Option<(string, string)>)
    ensures r.None? <==> forall j: nat :: !MatchAt(line, j)
    ensures r.Some? ==> IsUserKey(r.value.0) && IsRoleWord(r.value.1)
    ensures r.Some? ==> Contains(line, r.value.0 + ": " + r.value.1)
  {
    var m := SearchFrom(line, 0);
    if m.None? then None
    else
      MatchGroupsContained(line, m.value);
      Some((KeyAt(line, m.value), ValueAt(line, m.value)))
  }

  /** The dictionary `get_users` builds from these lines, in order: a later line overwrites a key. */
  function UsersOf(lines: seq<string>): (users: map<string, string>)
    ensures forall k :: k in users ==> IsUserKey(k) && IsRoleWord(users[k])
    decreases |lines|
  {
    if lines == [] then map[]
    else
      var users := UsersOf(lines[..|lines| - 1]);
      match UserMatch(lines[|lines| - 1])
      case None => users
      case Some(kv) => users[kv.0 := kv.1]
  }

  /** `get_users`: scans the document line by line and records each line's first match. */
  method GetUsers(text: string) returns (users: map<string, string>)
    ensures users == UsersOf(Lines(text))
  {
    var lines := Lines(text);
    users := map[];
    var i := 0;
    while i < |lines|
      invariant 0 <= i <= |lines|
      invariant users == UsersOf(lines[..i])
    {
      var m := UserMatch(lines[i]);
      if m.Some? {
        users := users[m.value.0 := m.value.1];
      }
      assert lines[..i + 1][..i] == lines[..i];
      i := i + 1;
    }
    assert lines[..|lines|] == lines;
  }

  /** A key is in the dictionary exactly when some line's first match has it. */
  lemma {:induction false} UsersOfKeys(lines: seq<string>, k: string)
    ensures k in UsersOf(lines) <==>
      exists j :: 0 <= j < |lines| && UserMatch(lines[j]).Some? && UserMatch(lines[j]).value.0 == k
    decreases |lines|
  {
    if lines != [] {
      var init := lines[..|lines| - 1];
      UsersOfKeys(init, k);
      assert forall j :: 0 <= j < |init| ==> init[j] == lines[j];
    }
  }

  /** One more line: its first match, if any, is recorded over what the earlier lines gave. */
  lemma UsersOfSnoc(lines: seq<string>, last: string)
    ensures UsersOf(lines + [last]) ==
      if UserMatch(last).None? then UsersOf(lines)
      else UsersOf(lines)[UserMatch(last).value.0 := UserMatch(last).value.1]
  {
    assert (lines + [last])[..|lines|] == lines;
  }

  /** For a key matched on a line and on no line after it, the value from that line is kept. */
  lemma {:induction false} UsersOfLastWins(init: seq<string>, line: string, rest: seq<string>, k: string, v: string)
    requires UserMatch(line) == Some((k, v))
    requires forall t :: 0 <= t < |rest| ==> UserMatch(rest[t]).None? || UserMatch(rest[t]).value.0 != k
    ensures k in UsersOf(init + [line] + rest) && UsersOf(init + [line] + rest)[k] == v
    decreases |rest|
  {
    if rest == [] {
      UsersOfSnoc(init, line);
      assert init + [line] + rest == init + [line];
    } else {
      var shorter, last := rest[..|rest| - 1], rest[|rest| - 1];
      var prev := init + [line] + shorter;
      assert init + [line] + rest == prev + [last] by {
        assert rest == shorter + [last];
      }
      assert k in UsersOf(prev) && UsersOf(prev)[k] == v by {
        assert forall t :: 0 <= t < |shorter| ==> shorter[t] == rest[t];
        UsersOfLastWins(init, line, shorter, k, v);
      }
      assert UserMatch(last).None? || UserMatch(last).value.0 != k;
      UsersOfSnoc(prev, last);
    }
  }

  /** A digit run, `@steam: ` and a word, placed after any prefix, match with exactly those groups. */
  lemma MatchOfParts(pre: string, digits: string, word: string)
    requires digits != [] && AllDigits(digits) && IsRoleWord(word)
    ensures var line := pre + digits + "@steam: " + word;
      var e := |pre| + |digits|;
      && MatchAt(line, |pre|) && DigitRunEnd(line, |pre|) == e && WordRunEnd(line, e + 8) == |line|
  {
    var line := pre + digits + "@steam: " + word;
    var i, e := |pre|, |pre| + |digits|;
    assert line[e + 8..] == word;
    assert MatchesWith(line, i, |digits|, |word|) by {
      assert line[i..e] == digits;
      assert line[e..e + 8] == "@steam: ";
    }
    assert MatchAt(line, i) && DigitRunEnd(line, i) == e by {
      MatchAtIff(line, i);
    }
    WordRunCovers(line, e + 8, |line|);
  }

  /** A Members entry for a cleaned ID and a one-word role matches with the ID and role as groups. */
  lemma MemberEntryMatch(steamid: string, role: string)
    requires steamid != [] && AllDigits(steamid) && IsRoleWord(role)
    ensures var line := MemberEntry(steamid, role);
      && MatchAt(line, 3) && DigitRunEnd(line, 3) == 3 + |steamid|
      && WordRunEnd(line, 3 + |steamid| + 8) == |line|
  {
    assert MemberEntry(steamid, role) == " - " + steamid + "@steam: " + role;
    MatchOfParts(" - ", steamid, role);
  }

  /** A Members entry whose role is one word reads back as its `<id>@steam` key and its role. */
  lemma UserMatchOfMemberEntry(steamid: string, role: string)
    requires steamid != [] && AllDigits(steamid) && IsRoleWord(role)
    ensures UserMatch(MemberEntry(steamid, role)) == Some((Token(steamid), role))
  {
    var line := MemberEntry(steamid, role);
    MemberEntryMatch(steamid, role);
    assert !IsDigit(line[0]) && !IsDigit(line[1]) && !IsDigit(line[2]);
    assert SearchFrom(line, 2) == Some(3);
    assert SearchFrom(line, 0) == Some(3);
    assert KeyAt(line, 3) == line[3..3 + |steamid| + 6] == Token(steamid);
    assert ValueAt(line, 3) == line[3 + |steamid| + 8..|line|] == role;
  }

  // ---------------------------------------------------------------------------
  // round trips
  // ---------------------------------------------------------------------------

  /** A Members entry for a cleaned ID has no line break in it. */
  lemma MemberEntryOneLine(steamid: string, role: string)
    requires AllDigits(steamid) && '\n' !in role
    ensures '\n' !in MemberEntry(steamid, role)
    ensures Lines(MemberEntry(steamid, role)) == [MemberEntry(steamid, role)]
  {
    var e := MemberEntry(steamid, role);
    assert forall t :: 3 <= t < 3 + |steamid| ==> e[t] == steamid[t - 3];
    assert forall t :: 3 + |steamid| + 8 <= t < |e| ==> e[t] == role[t - 3 - |steamid| - 8];
    CharNotContained(e, '\n');
    SplitSingle(e, "\n");
  }

  /** The role read back from a freshly written Members entry is the role written. */
  lemma RoleOnMemberEntry(steamid: string, role: string)
    requires steamid != [] && AllDigits(steamid)
    requires !Contains(role, RoleMarker(steamid)) && !Contains(role, EscapedNewline)
    ensures Contains(MemberEntry(steamid, role), steamid)
    ensures RoleOnLine(MemberEntry(steamid, role), steamid) == Ok(role)
  {
    var m := RoleMarker(steamid);
    var e := MemberEntry(steamid, role);
    assert e[3..3 + |steamid|] == steamid;
    OccursContains(e, steamid, 3);
    assert e[3..3 + |m|] == m;
    forall j: nat | j < 3
      ensures !OccursAt(e, m, j)
    {
      assert e[j] in " - " && m[0] == steamid[0];
      assert e[j..j + |m|][0] == e[j];
    }
    FindUnique(e, m, 3);
    assert e[3 + |m|..] == role;
    SplitHead(e, m);
    SplitSingle(role, m);
    SplitSingle(role, EscapedNewline);
  }

  /**
   * The lines of a document after `add_role`, with exactly one Members header and an ID it does
   * not mention: the old lines up to the header, the new entry, then the old lines after it;
   * no old line mentions the ID.
   */
  lemma LinesAfterAddRole(text: string, steamid: string, role: string)
      returns (above: seq<string>, below: seq<string>)
    requires OccursOnce(text, MembersHeader)
    requires steamid != [] && AllDigits(steamid) && !Contains(text, steamid) && '\n' !in role
    ensures Lines(AddRole(text, steamid, role)) == above + [MemberEntry(steamid, role)] + below
    ensures forall k :: 0 <= k < |above| ==> !Contains(above[k], steamid)
    ensures forall k :: 0 <= k < |below| ==> !Contains(below[k], steamid)
  {
    var k := Find(text, MembersHeader) + |MembersHeader|;
    var before, entry, after := text[..k - 1], MemberEntry(steamid, role), text[k..];
    assert AddRole(text, steamid, role) == before + "\n" + (entry + "\n" + after) by {
      AddRoleSpec(text, steamid, role);
      var i := k - |MembersHeader|;
      assert text[..i] + MembersHeader == before + "\n";
      assert MemberLine(steamid, role) == entry + "\n";
      assert AddRole(text, steamid, role) == (before + "\n") + (entry + "\n") + after;
    }
    assert !Contains(before, steamid) && !Contains(after, steamid) by {
      AvoidAroundCut(text, k, steamid);
      AvoidAroundCut(text[..k], k - 1, steamid);
      assert text[..k][..k - 1] == before;
    }
    MemberEntryOneLine(steamid, role);
    LinesAround(before, entry, after);
    above, below := Lines(before), Lines(after);
    LinesAvoid(before, steamid);
    LinesAvoid(after, steamid);
  }

  /**
   * Granting a role to an ID the document does not mention (exactly one Members header) and
   * reading it back with `get_role` gives that role.
   */
  lemma GetRoleAfterAddRole(text: string, steamid: string, role: string)
    requires OccursOnce(text, MembersHeader)
    requires steamid != [] && AllDigits(steamid) && !Contains(text, steamid)
    requires '\n' !in role && !Contains(role, EscapedNewline) && !Contains(role, RoleMarker(steamid))
    ensures FindRole(Lines(AddRole(text, steamid, role)), steamid) == Ok(Some(role))
  {
    var above, below := LinesAfterAddRole(text, steamid, role);
    assert above + [MemberEntry(steamid, role)] + below == above + ([MemberEntry(steamid, role)] + below);
    FindRoleSkip(above, [MemberEntry(steamid, role)] + below, steamid);
    RoleOnMemberEntry(steamid, role);
  }

  /** A line that does not mention an ID has no match keyed by that ID. */
  lemma NoMatchOfAbsentId(line: string, steamid: string)
    requires !Contains(line, steamid)
    ensures UserMatch(line).None? || UserMatch(line).value.0 != Token(steamid)
  {
    var m := UserMatch(line);
    if m.Some? && m.value.0 == Token(steamid) {
      var found := m.value.0 + ": " + m.value.1;
      assert found[0..|steamid|] == steamid;
      OccursContains(found, steamid, 0);
      ContainsTrans(line, found, steamid);
    }
  }

  /**
   * Granting a one-word role to an ID the document does not mention and listing the users
   * with `get_users` shows the ID with that role.
   */
  lemma GetUsersAfterAddRole(text: string, steamid: string, role: string)
    requires OccursOnce(text, MembersHeader)
    requires steamid != [] && AllDigits(steamid) && !Contains(text, steamid) && IsRoleWord(role)
    ensures var users := UsersOf(Lines(AddRole(text, steamid, role)));
      Token(steamid) in users && users[Token(steamid)] == role
  {
    assert '\n' !in role by {
      forall t | 0 <= t < |role|
        ensures role[t] != '\n'
      {
        assert IsWordChar(role[t]);
      }
    }
    var above, below := LinesAfterAddRole(text, steamid, role);
    UserMatchOfMemberEntry(steamid, role);
    forall t | 0 <= t < |below|
      ensures UserMatch(below[t]).None? || UserMatch(below[t]).value.0 != Token(steamid)
    {
      NoMatchOfAbsentId(below[t], steamid);
    }
    UsersOfLastWins(above, MemberEntry(steamid, role), below, Token(steamid), role);
  }

  /** A Members line carries its ID at offset 3, after three non-digits. */
  lemma MemberLineCarriesId(steamid: string, role: string)
    ensures var line := MemberLine(steamid, role);
      && 3 + |steamid| <= |line| && line[3..3 + |steamid|] == steamid
      && (forall t :: 0 <= t < 3 ==> !IsDigit(line[t]))
      && Contains(line, steamid)
  {
    var line := MemberLine(steamid, role);
    assert line[3..3 + |steamid|] == steamid;
    OccursContains(line, steamid, 3);
  }

  /**
   * In a document with exactly one `Members:\n` header that does not mention the ID, granting
   * a role and then removing that same role gives back the original document byte for byte.
   * Both conditions matter: with an entry already present, `add_role` writes a second copy and
   * `remove_role` deletes both.
   */
  lemma RemoveRoleAfterAddRole(text: string, steamid: string, role: string)
    requires OccursOnce(text, MembersHeader)
    requires steamid != [] && AllDigits(steamid) && !Contains(text, steamid)
    ensures RemoveRole(AddRole(text, steamid, role), steamid, role) == text
  {
    var k := Find(text, MembersHeader) + |MembersHeader|;
    var a, line, rest := text[..k], MemberLine(steamid, role), text[k..];
    assert a + rest == text;
    assert AddRole(text, steamid, role) == a + line + rest by {
      AddRoleSpec(text, steamid, role);
      assert text[..k - |MembersHeader|] + MembersHeader == a;
    }
    assert Find(a + line + rest, line) == |a| && !Contains(rest, line) by {
      AvoidAroundCut(text, k, steamid);
      MemberLineCarriesId(steamid, role);
      FoundAfter(a, line, rest, steamid, 3);
      NotContainsVia(rest, line, steamid);
    }
    ReplaceSole(a, line, rest);
  }

  /** `get_role` reads the role of an entry on the last line that has no line break after it. */
  lemma FindRoleOnLastLine(before: string, steamid: string, role: string)
    requires steamid != [] && AllDigits(steamid) && !Contains(before, steamid) && '\n' !in role
    requires !Contains(role, RoleMarker(steamid)) && !Contains(role, EscapedNewline)
    ensures FindRole(Lines(before + "\n" + MemberEntry(steamid, role)), steamid) == Ok(Some(role))
  {
    var e := MemberEntry(steamid, role);
    MemberEntryOneLine(steamid, role);
    assert before + "\n" + e == before + ['\n'] + e;
    SplitCharConcat(before, '\n', e);
    LinesAvoid(before, steamid);
    FindRoleSkip(Lines(before), [e], steamid);
    RoleOnMemberEntry(steamid, role);
    assert FindRole([e], steamid) == AsFound(RoleOnLine(e, steamid));
  }

  /**
   * `remove_role` deletes an entry only together with its line break; an entry on the last
   * line with no line break after it, for an ID mentioned nowhere else, is not deleted.
   */
  lemma UnterminatedEntryNotRemoved(before: string, steamid: string, role: string)
    requires AllDigits(steamid) && !Contains(before, steamid) && '\n' !in role
    ensures !Contains(before + "\n" + MemberEntry(steamid, role), MemberLine(steamid, role))
  {
    var text := before + "\n" + MemberEntry(steamid, role);
    var line := MemberLine(steamid, role);
    MemberEntryOneLine(steamid, role);
    MemberLineCarriesId(steamid, role);
    assert line[|line| - 1] == '\n';
    assert |line| == |steamid| + |role| + 12;
    forall p: nat
      ensures !OccursAt(text, line, p)
    {
      LastLineAvoids(before, MemberEntry(steamid, role), line, steamid, 3, p);
    }
    ContainsIff(text, line);
  }

  /**
   * So `remove_role` on a document that ends in such an entry changes nothing, although
   * `get_role` still reports the role.
   */
  lemma RemoveRoleMissesLastEntry(before: string, steamid: string, role: string)
    requires steamid != [] && AllDigits(steamid) && !Contains(before, steamid) && '\n' !in role
    requires !Contains(role, RoleMarker(steamid)) && !Contains(role, EscapedNewline)
    ensures var text := before + "\n" + MemberEntry(steamid, role);
      && FindRole(Lines(text), steamid) == Ok(Some(role))
      && RemoveRole(text, steamid, role) == text
  {
    FindRoleOnLastLine(before, steamid, role);
    UnterminatedEntryNotRemoved(before, steamid, role);
  }

  /** Adding an ID the membership set does not mention and removing it again restores the text. */
  lemma RemoveAfterAddMiscellaneous(text: string, steamid: string)
    requires steamid != [] && AllDigits(steamid) && !InMiscellaneous(text, steamid)
    ensures RemoveMiscellaneous(AddMiscellaneous(text, steamid), steamid) == text
  {
    var pat := "\n" + Token(steamid);
    assert AddMiscellaneous(text, steamid) == text + pat + "";
    assert pat[1..1 + |steamid|] == steamid;
    FoundAfter(text, pat, "", steamid, 1);
    assert Find("", pat) == -1;
    ReplaceSole(text, pat, "");
  }

  /**
   * Removal deletes every `\n<id>@steam`, so for the document that is just that line, adding
   * the ID again and then removing it leaves nothing and the ID unlisted. An ID whose only
   * mention is its token on the first line, with no line break before it, is never removed
   * (`FirstLineTokenStays`).
   */
  lemma AddRemoveDropsExistingMember(steamid: string)
    requires steamid != []
    ensures InMiscellaneous("\n" + Token(steamid), steamid)
    ensures RemoveMiscellaneous(AddMiscellaneous("\n" + Token(steamid), steamid), steamid) == ""
    ensures !InMiscellaneous("", steamid)
  {
    var pat := "\n" + Token(steamid);
    assert Contains(pat, steamid) by {
      assert pat[1..1 + |steamid|] == steamid;
      OccursContains(pat, steamid, 1);
    }
    assert AddMiscellaneous(pat, steamid) == pat + pat;
    assert RemoveMiscellaneous(pat + pat, steamid) == "" by {
      ReplaceDoubled(pat);
    }
    assert Find("", steamid) == -1;
  }

  /**
   * The same for any document whose only mention of the ID is the last line `\n<id>@steam` an
   * earlier add left: adding the ID again and removing it deletes both copies, so the document
   * is the one from before that add, and the ID is no longer listed.
   */
  lemma ReaddRemoveDropsLastLine(before: string, steamid: string)
    requires steamid != [] && AllDigits(steamid) && !Contains(before, steamid)
    ensures var listed := AddMiscellaneous(before, steamid);
      && InMiscellaneous(listed, steamid)
      && RemoveMiscellaneous(AddMiscellaneous(listed, steamid), steamid) == before
      && !InMiscellaneous(before, steamid)
  {
    ReaddRemoveRestores(before, steamid);
    assert !InMiscellaneous(before, steamid);
  }

  /** Adding an ID twice to a document that does not mention it and removing it restores the document. */
  lemma ReaddRemoveRestores(before: string, steamid: string)
    requires steamid != [] && AllDigits(steamid) && !Contains(before, steamid)
    ensures RemoveMiscellaneous(AddMiscellaneous(AddMiscellaneous(before, steamid), steamid), steamid) == before
  {
    AddTwice(before, steamid);
    DoubledTokenRemoved(before, steamid);
  }

  /** Adding an ID twice appends two copies of its line. */
  lemma AddTwice(text: string, steamid: string)
    ensures AddMiscellaneous(AddMiscellaneous(text, steamid), steamid) == text + ("\n" + Token(steamid)) + ("\n" + Token(steamid))
  {
  }

  /** Both copies of the line are removed when the text before them does not mention the ID. */
  lemma DoubledTokenRemoved(before: string, steamid: string)
    requires steamid != [] && AllDigits(steamid) && !Contains(before, steamid)
    ensures RemoveMiscellaneous(before + ("\n" + Token(steamid)) + ("\n" + Token(steamid)), steamid) == before
  {
    var pat := "\n" + Token(steamid);
    assert pat[1..1 + |steamid|] == steamid;
    FoundAfter(before, pat, pat, steamid, 1);
    ReplaceTwiceAfter(before, pat);
  }
}
