/**
 * The slash commands of app/main.py that change a server's files: granting and revoking an
 * admin role, and adding to or removing from the whitelist and the reserved slots. With the
 * Discord replies reduced to a `Reply` value and the SFTP transfer reduced to copying a text
 * between a remote and a local map, each command is a decision over the fetched document that
 * ends in no change, or in one codec transform written locally and pushed back.
 */
module Bot {
  import opened Wrappers
  import opened Text
  import opened Steam
  import opened FileOperations

  /** The three files each server keeps, named by the configuration. */
  datatype FileKind = RaFile | WhitelistFile | ReservedSlotsFile

  /**
   * The part of config.json the commands read: the remote base path, each server's port
   * (its keys are the servers a command may be given), the three file names and the roles that
   * may not be granted.
   */
  datatype Config = Config(
    path: string,
    ports: map<string, string>,
    raFile: string,
    whitelistFile: string,
    reservedSlotsFile: string,
    prohibitedRoles: set<string>)

  function FileName(cfg: Config, kind: FileKind): string
  {
    match kind
    case RaFile => cfg.raFile
    case WhitelistFile => cfg.whitelistFile
    case ReservedSlotsFile => cfg.reservedSlotsFile
  }

  /** `<port>-<file>`: where a fetched file is kept on the bot's machine. */
  function LocalPath(cfg: Config, server: string, kind: FileKind): string
    requires server in cfg.ports
  {
    cfg.ports[server] + "-" + FileName(cfg, kind)
  }

  /** `<path><port>/<file>`: where the file lives on the game server's host. */
  function RemotePath(cfg: Config, server: string, kind: FileKind): string
    requires server in cfg.ports
  {
    cfg.path + cfg.ports[server] + "/" + FileName(cfg, kind)
  }

  /** One SFTP transfer: a fetch copies remote to local, a push copies local to remote. */
  datatype Transfer = Fetched(server: string, kind: FileKind) | Pushed(server: string, kind: FileKind)

  /** Both sides of the file store and the transfers made so far. */
  datatype Store = Store(remote: map<string, string>, local: map<string, string>, transfers: seq<Transfer>)

  /** `File.get`: fails (the SFTP open raises) when the remote file does not exist. */
  function Fetch(cfg: Config, st: Store, server: string, kind: FileKind): (r: Option<Store>)
    requires server in cfg.ports
    ensures r.Some? <==> RemotePath(cfg, server, kind) in st.remote
    ensures r.Some? ==>
      var dst := LocalPath(cfg, server, kind);
      && r.value.remote == st.remote
      && dst in r.value.local && r.value.local[dst] == st.remote[RemotePath(cfg, server, kind)]
      && (forall p :: p in st.local && p != dst ==> p in r.value.local && r.value.local[p] == st.local[p])
      && r.value.transfers == st.transfers + [Fetched(server, kind)]
  {
    var src := RemotePath(cfg, server, kind);
    if src !in st.remote then None
    else Some(Store(st.remote, st.local[LocalPath(cfg, server, kind) := st.remote[src]],
                    st.transfers + [Fetched(server, kind)]))
  }

  /** `File.put` of a file that exists locally. */
  function Push(cfg: Config, st: Store, server: string, kind: FileKind): (r: Store)
    requires server in cfg.ports && LocalPath(cfg, server, kind) in st.local
    ensures var src := RemotePath(cfg, server, kind);
      && src in r.remote && r.remote[src] == st.local[LocalPath(cfg, server, kind)]
      && (forall p :: p in st.remote && p != src ==> p in r.remote && r.remote[p] == st.remote[p])
    ensures r.local == st.local && r.transfers == st.transfers + [Pushed(server, kind)]
  {
    Store(st.remote[RemotePath(cfg, server, kind) := st.local[LocalPath(cfg, server, kind)]],
          st.local, st.transfers + [Pushed(server, kind)])
  }

  /** Writing the transformed text over the local copy and pushing it. */
  function WriteAndPush(cfg: Config, st: Store, server: string, kind: FileKind, text: string): Store
    requires server in cfg.ports
  {
    Push(cfg, st.(local := st.local[LocalPath(cfg, server, kind) := text]), server, kind)
  }

  /** What the bot answers; the embeds' wording, colours and profile data are left out. */
  datatype Reply =
    | InvalidSteamId                         // check_steamid: not 17 digits
    | ProhibitedRole                         // check_role: a role that may not be granted
    | TransferFailed                         // File.get raised: the remote file is missing
    | Crashed(error: Error)                  // an IndexError escaped from the codec
    | RolesListed(roles: string, requestedRoleMissing: bool)
    | AlreadyHasRole
    | RoleChanged(oldRole: string, role: string)
    | RoleGranted(role: string)
    | HasNoRole
    | RoleRevoked(role: string)
    | RoleNotRemoved(role: string)           // corrected remove_role: the entry could not be deleted
    | AlreadyMember
    | MemberAdded
    | NotMember
    | MemberRemoved

  /** The replies that follow a write of the local file and a push. */
  predicate Mutates(reply: Reply)
  {
    reply.RoleChanged? || reply.RoleGranted? || reply.RoleRevoked? || reply.MemberAdded? || reply.MemberRemoved?
  }

  datatype Outcome = Outcome(reply: Reply, store: Store)

  /**
   * What a command on one server's file of one kind may do to the store: it only fetches and
   * pushes that file; it transfers anything exactly when it `fetched`, and then a fetch comes
   * before anything else; it pushes exactly when it mutates, and then only once and last; the
   * remote side changes only by that push, and no other local file changes.
   */
  predicate Disciplined(cfg: Config, before: Store, after: Store, server: string, kind: FileKind, fetched: bool, mutated: bool)
    requires server in cfg.ports
  {
    var src := RemotePath(cfg, server, kind);
    var dst := LocalPath(cfg, server, kind);
    && before.transfers <= after.transfers
    && var log := after.transfers[|before.transfers|..];
    && (forall t :: t in log ==> t.server == server && t.kind == kind)
    && (log != [] <==> fetched)
    && (log != [] ==> log[0] == Fetched(server, kind))
    && (Pushed(server, kind) in log <==> mutated)
    && (mutated ==> log[|log| - 1] == Pushed(server, kind) && Pushed(server, kind) !in log[..|log| - 1])
    && (mutated ==> dst in after.local && after.remote == before.remote[src := after.local[dst]])
    && (!mutated ==> after.remote == before.remote)
    && (forall p :: p in after.local ==> p in before.local || p == dst)
    && (forall p :: p in before.local && p != dst ==> p in after.local && after.local[p] == before.local[p])
  }

  /** A fetch keeps to the discipline: it logs one fetch and only refreshes the local copy. */
  lemma FetchDisciplined(cfg: Config, st: Store, server: string, kind: FileKind)
    requires server in cfg.ports && Fetch(cfg, st, server, kind).Some?
    ensures Disciplined(cfg, st, Fetch(cfg, st, server, kind).value, server, kind, true, false)
  {
    var f := Fetch(cfg, st, server, kind).value;
    assert f.transfers[|st.transfers|..] == [Fetched(server, kind)];
  }

  /**
   * A fetch followed by writing `text` locally and pushing it keeps to the discipline, and the
   * remote file then holds `text`.
   */
  lemma PushDisciplined(cfg: Config, st: Store, server: string, kind: FileKind, text: string)
    requires server in cfg.ports && Fetch(cfg, st, server, kind).Some?
    ensures var after := WriteAndPush(cfg, Fetch(cfg, st, server, kind).value, server, kind, text);
      && Disciplined(cfg, st, after, server, kind, true, true)
      && after.remote == st.remote[RemotePath(cfg, server, kind) := text]
  {
    var after := WriteAndPush(cfg, Fetch(cfg, st, server, kind).value, server, kind, text);
    assert after.transfers[|st.transfers|..] == [Fetched(server, kind), Pushed(server, kind)];
  }

  // ---------------------------------------------------------------------------
  // the commands as functions of the store
  // ---------------------------------------------------------------------------

  /**
   * `server_roles`: fetches the role file and lists its `Roles:` block. Called from
   * `grant_role` when the requested role is not listed, it says so first.
   */
  function ServerRolesSpec(cfg: Config, st: Store, server: string, requestedRoleMissing: bool): (o: Outcome)
    requires server in cfg.ports
    ensures !Mutates(o.reply)
    ensures Disciplined(cfg, st, o.store, server, RaFile, RemotePath(cfg, server, RaFile) in st.remote, false)
    ensures o.reply.RolesListed? || o.reply.TransferFailed? || o.reply.Crashed?
    ensures o.reply.TransferFailed? <==> RemotePath(cfg, server, RaFile) !in st.remote
    ensures o.reply.TransferFailed? ==> o.store == st
    ensures !o.reply.TransferFailed? ==> Fetch(cfg, st, server, RaFile) == Some(o.store)
    ensures RemotePath(cfg, server, RaFile) in st.remote ==>
      (o.reply.Crashed? <==> GetRoles(st.remote[RemotePath(cfg, server, RaFile)]).Err?)
    ensures o.reply.RolesListed? ==>
      (RemotePath(cfg, server, RaFile) in st.remote
       && GetRoles(st.remote[RemotePath(cfg, server, RaFile)]) == Ok(o.reply.roles)
       && o.reply.requestedRoleMissing == requestedRoleMissing)
  {
    match Fetch(cfg, st, server, RaFile)
    case None => Outcome(TransferFailed, st)
    case Some(f) =>
      FetchDisciplined(cfg, st, server, RaFile);
      var text := st.remote[RemotePath(cfg, server, RaFile)];
      match GetRoles(text)
      case Err(e) => Outcome(Crashed(e), f)
      case Ok(roles) => Outcome(RolesListed(roles, requestedRoleMissing), f)
  }

  /**
   * `grant_role` once its checks have passed and the role file is fetched: it reads the current
   * role and checks that the requested one is listed, then answers that it is already held,
   * replaces a different non-empty role, or inserts a new Members entry; only the last two
   * write and push. An `IndexError` from either read ends the command.
   */
  function GrantOnFile(cfg: Config, st: Store, id: string, role: string, server: string): (o: Outcome)
    requires server in cfg.ports && RemotePath(cfg, server, RaFile) in st.remote
    ensures Disciplined(cfg, st, o.store, server, RaFile, true, Mutates(o.reply))
    ensures o.reply.AlreadyHasRole? || o.reply.Crashed? ==> Fetch(cfg, st, server, RaFile) == Some(o.store)
    ensures o.reply.RolesListed? ==>
      Fetch(cfg, Fetch(cfg, st, server, RaFile).value, server, RaFile) == Some(o.store)
    ensures o.reply.RoleChanged? || o.reply.RoleGranted? || o.reply.RolesListed? ||
      o.reply.AlreadyHasRole? || o.reply.Crashed?
    ensures var text := st.remote[RemotePath(cfg, server, RaFile)];
      var current := FindRole(Lines(text), id);
      var listed := ContainsRole(role, text);
      && (o.reply.Crashed? <==> current.Err? || listed.Err?)
      && (o.reply.RolesListed? <==> current.Ok? && listed == Ok(false))
      && (o.reply.AlreadyHasRole? <==> current == Ok(Some(role)) && listed == Ok(true))
      && (o.reply.RoleChanged? <==>
            current.Ok? && current.value.Some? && current.value.value !in {"", role} && listed == Ok(true))
      && (o.reply.RoleGranted? <==>
            current in {Ok(None), Ok(Some(""))} && current != Ok(Some(role)) && listed == Ok(true))
      && (o.reply.RolesListed? ==> GetRoles(text) == Ok(o.reply.roles) && o.reply.requestedRoleMissing)
      && (o.reply.RoleChanged? ==>
            o.reply == RoleChanged(current.value.value, role)
            && o.store.remote[RemotePath(cfg, server, RaFile)] == ChangeRole(text, id, current.value.value, role))
      && (o.reply.RoleGranted? ==>
            o.reply == RoleGranted(role) && o.store.remote[RemotePath(cfg, server, RaFile)] == AddRole(text, id, role))
  {
    var f := Fetch(cfg, st, server, RaFile).value;
    FetchDisciplined(cfg, st, server, RaFile);
    var text := st.remote[RemotePath(cfg, server, RaFile)];
    match FindRole(Lines(text), id)
    case Err(e) => Outcome(Crashed(e), f)
    case Ok(oldRole) =>
      match ContainsRole(role, text)
      case Err(e) => Outcome(Crashed(e), f)
      case Ok(listed) =>
        if !listed then
          ServerRolesAfterFetch(cfg, st, f, server);
          ServerRolesSpec(cfg, f, server, true)
        else if oldRole == Some(role) then Outcome(AlreadyHasRole, f)
        else if oldRole.Some? && oldRole.value != "" then
          PushDisciplined(cfg, st, server, RaFile, ChangeRole(text, id, oldRole.value, role));
          Outcome(RoleChanged(oldRole.value, role),
                  WriteAndPush(cfg, f, server, RaFile, ChangeRole(text, id, oldRole.value, role)))
        else
          PushDisciplined(cfg, st, server, RaFile, AddRole(text, id, role));
          Outcome(RoleGranted(role), WriteAndPush(cfg, f, server, RaFile, AddRole(text, id, role)))
  }

  /**
   * `grant_role`: a malformed SteamID or a prohibited role is refused before any transfer, a
   * missing role file fails the fetch, and otherwise the command decides on the fetched file.
   */
  function GrantSpec(cfg: Config, st: Store, steamid: string, role: string, server: string): (o: Outcome)
    requires server in cfg.ports
    ensures Disciplined(cfg, st, o.store, server, RaFile,
      CleanSteamId64(steamid).Some? && role !in cfg.prohibitedRoles && RemotePath(cfg, server, RaFile) in st.remote,
      Mutates(o.reply))
    ensures o.reply.InvalidSteamId? <==> CleanSteamId64(steamid).None?
    ensures o.reply.ProhibitedRole? <==> CleanSteamId64(steamid).Some? && role in cfg.prohibitedRoles
    ensures o.reply.TransferFailed? <==>
      CleanSteamId64(steamid).Some? && role !in cfg.prohibitedRoles && RemotePath(cfg, server, RaFile) !in st.remote
    ensures o.reply.InvalidSteamId? || o.reply.ProhibitedRole? || o.reply.TransferFailed? ==> o.store == st
    ensures CleanSteamId64(steamid).Some? && role !in cfg.prohibitedRoles && RemotePath(cfg, server, RaFile) in st.remote ==>
      o == GrantOnFile(cfg, st, CleanSteamId64(steamid).value, role, server)
  {
    match CleanSteamId64(steamid)
    case None => Outcome(InvalidSteamId, st)
    case Some(id) =>
      if role in cfg.prohibitedRoles then Outcome(ProhibitedRole, st)
      else if RemotePath(cfg, server, RaFile) !in st.remote then Outcome(TransferFailed, st)
      else GrantOnFile(cfg, st, id, role, server)
  }

  /**
   * `server_roles` run on top of a fetch this command already made still keeps to the
   * discipline. This follows directly from unfolding `Fetch` twice.
   */
  lemma ServerRolesAfterFetch(cfg: Config, st: Store, f: Store, server: string)
    requires server in cfg.ports && Fetch(cfg, st, server, RaFile) == Some(f)
    ensures Disciplined(cfg, st, ServerRolesSpec(cfg, f, server, true).store, server, RaFile, true, false)
  {
    var g := ServerRolesSpec(cfg, f, server, true).store;
    assert g.transfers[|st.transfers|..] == [Fetched(server, RaFile), Fetched(server, RaFile)];
  }

  /**
   * When `grant_role` refuses a role that is not listed, it shows exactly what `server_roles`
   * shows for that server, and neither command changes the remote files. This follows
   * directly from unfolding `GrantSpec`, `GrantOnFile` and `ServerRolesSpec`.
   */
  lemma GrantRefusalShowsServerRoles(cfg: Config, st: Store, steamid: string, role: string, server: string)
    requires server in cfg.ports && GrantSpec(cfg, st, steamid, role, server).reply.RolesListed?
    ensures var g := GrantSpec(cfg, st, steamid, role, server);
      var s := ServerRolesSpec(cfg, st, server, true);
      && g.reply == s.reply
      && g.store.remote == st.remote && s.store.remote == st.remote
      && ContainsRole(role, st.remote[RemotePath(cfg, server, RaFile)]) == Ok(false)
  {
  }

  /**
   * `remove_role`: reads the current role; with none (or an empty one) nothing changes,
   * otherwise the entry with exactly that role is deleted and the file pushed.
   */
  function RevokeSpec(cfg: Config, st: Store, steamid: string, server: string): (o: Outcome)
    requires server in cfg.ports
    ensures Disciplined(cfg, st, o.store, server, RaFile,
      CleanSteamId64(steamid).Some? && RemotePath(cfg, server, RaFile) in st.remote, Mutates(o.reply))
    ensures o.reply.RoleRevoked? || o.reply.HasNoRole? || o.reply.InvalidSteamId? ||
      o.reply.TransferFailed? || o.reply.Crashed?
    ensures o.reply.HasNoRole? || o.reply.Crashed? ==> Fetch(cfg, st, server, RaFile) == Some(o.store)
    ensures o.reply.InvalidSteamId? <==> CleanSteamId64(steamid).None?
    ensures o.reply.TransferFailed? <==> CleanSteamId64(steamid).Some? && RemotePath(cfg, server, RaFile) !in st.remote
    ensures o.reply.InvalidSteamId? || o.reply.TransferFailed? ==> o.store == st
    ensures CleanSteamId64(steamid).Some? && RemotePath(cfg, server, RaFile) in st.remote ==>
      (o.reply.Crashed? <==> FindRole(Lines(st.remote[RemotePath(cfg, server, RaFile)]), CleanSteamId64(steamid).value).Err?)
    ensures o.reply.RoleRevoked? || o.reply.HasNoRole? ==>
      CleanSteamId64(steamid).Some? && RemotePath(cfg, server, RaFile) in st.remote
    ensures o.reply.RoleRevoked? || o.reply.HasNoRole? ==>
      var text := st.remote[RemotePath(cfg, server, RaFile)];
      var id := CleanSteamId64(steamid).value;
      var current := FindRole(Lines(text), id);
      && (o.reply.HasNoRole? ==> current in {Ok(None), Ok(Some(""))})
      && (o.reply.RoleRevoked? ==>
            (o.reply.role != "" && current == Ok(Some(o.reply.role))
             && o.store.remote[RemotePath(cfg, server, RaFile)] == RemoveRole(text, id, o.reply.role)))
  {
    match CleanSteamId64(steamid)
    case None => Outcome(InvalidSteamId, st)
    case Some(id) =>
      match Fetch(cfg, st, server, RaFile)
      case None => Outcome(TransferFailed, st)
      case Some(f) =>
        FetchDisciplined(cfg, st, server, RaFile);
        var text := st.remote[RemotePath(cfg, server, RaFile)];
        match FindRole(Lines(text), id)
        case Err(e) => Outcome(Crashed(e), f)
        case Ok(oldRole) =>
          if oldRole.None? || oldRole.value == "" then Outcome(HasNoRole, f)
          else
            PushDisciplined(cfg, st, server, RaFile, RemoveRole(text, id, oldRole.value));
            Outcome(RoleRevoked(oldRole.value),
                    WriteAndPush(cfg, f, server, RaFile, RemoveRole(text, id, oldRole.value)))
  }

  /**
   * `remove_role` as evidently intended: it reports a revoked role only when an entry was
   * deleted. When the entry it would delete does not occur, it pushes nothing and says so;
   * in every other case it behaves as `remove_role` does.
   */
  function RevokeSpecFixed(cfg: Config, st: Store, steamid: string, server: string): (o: Outcome)
    requires server in cfg.ports
    ensures Disciplined(cfg, st, o.store, server, RaFile,
      CleanSteamId64(steamid).Some? && RemotePath(cfg, server, RaFile) in st.remote, Mutates(o.reply))
    ensures !o.reply.RoleNotRemoved? ==> o == RevokeSpec(cfg, st, steamid, server)
    ensures o.reply.RoleRevoked? || o.reply.RoleNotRemoved? ==>
      CleanSteamId64(steamid).Some? && RemotePath(cfg, server, RaFile) in st.remote
    ensures o.reply.RoleRevoked? ==>
      var text := st.remote[RemotePath(cfg, server, RaFile)];
      && Contains(text, MemberLine(CleanSteamId64(steamid).value, o.reply.role))
      && |o.store.remote[RemotePath(cfg, server, RaFile)]| < |text|
    ensures o.reply.RoleNotRemoved? ==>
      var text := st.remote[RemotePath(cfg, server, RaFile)];
      && RevokeSpec(cfg, st, steamid, server).reply == RoleRevoked(o.reply.role)
      && !Contains(text, MemberLine(CleanSteamId64(steamid).value, o.reply.role))
      && o.store.remote == st.remote
      && Fetch(cfg, st, server, RaFile) == Some(o.store)
  {
    var o := RevokeSpec(cfg, st, steamid, server);
    if !o.reply.RoleRevoked? then o
    else
      var text := st.remote[RemotePath(cfg, server, RaFile)];
      if RemoveRole(text, CleanSteamId64(steamid).value, o.reply.role) != text then o
      else
        FetchDisciplined(cfg, st, server, RaFile);
        Outcome(RoleNotRemoved(o.reply.role), Fetch(cfg, st, server, RaFile).value)
  }

  /** The two choices of the whitelist and reserved-slot commands. */
  datatype Action = Add | Remove

  /**
   * `white_list` and `reserved_slots`: adding writes only when the ID is not yet mentioned,
   * removing writes only when it is.
   */
  function MembershipSpec(cfg: Config, st: Store, steamid: string, action: Action, server: string, kind: FileKind): (o: Outcome)
    requires server in cfg.ports
    ensures Disciplined(cfg, st, o.store, server, kind,
      CleanSteamId64(steamid).Some? && RemotePath(cfg, server, kind) in st.remote, Mutates(o.reply))
    ensures o.reply.AlreadyMember? || o.reply.NotMember? ==> Fetch(cfg, st, server, kind) == Some(o.store)
    ensures o.reply.MemberAdded? || o.reply.AlreadyMember? || o.reply.MemberRemoved? || o.reply.NotMember? ||
      o.reply.InvalidSteamId? || o.reply.TransferFailed?
    ensures o.reply.MemberAdded? || o.reply.AlreadyMember? ==> action == Add
    ensures o.reply.MemberRemoved? || o.reply.NotMember? ==> action == Remove
    ensures o.reply.InvalidSteamId? <==> CleanSteamId64(steamid).None?
    ensures o.reply.TransferFailed? <==> CleanSteamId64(steamid).Some? && RemotePath(cfg, server, kind) !in st.remote
    ensures o.reply.InvalidSteamId? || o.reply.TransferFailed? ==> o.store == st
    ensures CleanSteamId64(steamid).Some? && RemotePath(cfg, server, kind) in st.remote ==>
      var id := CleanSteamId64(steamid).value;
      var before := st.remote[RemotePath(cfg, server, kind)];
      && (action == Add ==> (o.reply.MemberAdded? <==> !InMiscellaneous(before, id)))
      && (action == Remove ==> (o.reply.MemberRemoved? <==> InMiscellaneous(before, id)))
      && (o.reply.MemberAdded? ==> o.store.remote[RemotePath(cfg, server, kind)] == AddMiscellaneous(before, id))
      && (o.reply.MemberRemoved? ==> o.store.remote[RemotePath(cfg, server, kind)] == RemoveMiscellaneous(before, id))
  {
    match CleanSteamId64(steamid)
    case None => Outcome(InvalidSteamId, st)
    case Some(id) =>
      match Fetch(cfg, st, server, kind)
      case None => Outcome(TransferFailed, st)
      case Some(f) =>
        FetchDisciplined(cfg, st, server, kind);
        var text := st.remote[RemotePath(cfg, server, kind)];
        match action
        case Add =>
          if InMiscellaneous(text, id) then Outcome(AlreadyMember, f)
          else
            PushDisciplined(cfg, st, server, kind, AddMiscellaneous(text, id));
            Outcome(MemberAdded, WriteAndPush(cfg, f, server, kind, AddMiscellaneous(text, id)))
        case Remove =>
          if !InMiscellaneous(text, id) then Outcome(NotMember, f)
          else
            PushDisciplined(cfg, st, server, kind, RemoveMiscellaneous(text, id));
            Outcome(MemberRemoved, WriteAndPush(cfg, f, server, kind, RemoveMiscellaneous(text, id)))
  }

  // ---------------------------------------------------------------------------
  // command sequences
  // ---------------------------------------------------------------------------

  /** The preconditions under which a fresh grant can be read back: see `GetRoleAfterAddRole`. */
  predicate FreshGrant(cfg: Config, st: Store, steamid: string, role: string, server: string)
    requires server in cfg.ports
  {
    && CleanSteamId64(steamid).Some? && role !in cfg.prohibitedRoles
    && RemotePath(cfg, server, RaFile) in st.remote
    && var text := st.remote[RemotePath(cfg, server, RaFile)];
    && var id := CleanSteamId64(steamid).value;
    && OccursOnce(text, MembersHeader) && !Contains(text, id) && ContainsRole(role, text) == Ok(true)
    && role != "" && '\n' !in role && !Contains(role, EscapedNewline) && !Contains(role, RoleMarker(id))
  }

  /**
   * Granting a listed role to a player the role file does not mention inserts an entry, and
   * `get_role` on the pushed file then returns that role.
   */
  lemma GrantThenReadBack(cfg: Config, st: Store, steamid: string, role: string, server: string)
    requires server in cfg.ports && FreshGrant(cfg, st, steamid, role, server)
    ensures var o := GrantSpec(cfg, st, steamid, role, server);
      && o.reply == RoleGranted(role)
      && FindRole(Lines(o.store.remote[RemotePath(cfg, server, RaFile)]), CleanSteamId64(steamid).value)
         == Ok(Some(role))
  {
    var text := st.remote[RemotePath(cfg, server, RaFile)];
    var id := CleanSteamId64(steamid).value;
    NoLineMentions(text, id);
    GetRoleAfterAddRole(text, id, role);
  }

  /** Overwriting an entry and then writing its old value back restores the map; a direct map fact. */
  lemma RestoreEntry(m: map<string, string>, key: string, v: string)
    requires key in m
    ensures m[key := v][key := m[key]] == m
  {
  }

  /**
   * Granting a listed role to a player the role file does not mention, then revoking the
   * player's role, revokes exactly that role and leaves the remote file as it was before.
   */
  lemma GrantThenRevokeRestores(cfg: Config, st: Store, steamid: string, role: string, server: string)
    requires server in cfg.ports && FreshGrant(cfg, st, steamid, role, server)
    ensures var o := GrantSpec(cfg, st, steamid, role, server);
      var r := RevokeSpec(cfg, o.store, steamid, server);
      && r.reply == RoleRevoked(role)
      && r.store.remote == st.remote
  {
    var src := RemotePath(cfg, server, RaFile);
    var text := st.remote[src];
    var id := CleanSteamId64(steamid).value;
    var o := GrantSpec(cfg, st, steamid, role, server);
    assert o.reply == RoleGranted(role) && FindRole(Lines(o.store.remote[src]), id) == Ok(Some(role)) by {
      GrantThenReadBack(cfg, st, steamid, role, server);
    }
    assert o.store.remote == st.remote[src := AddRole(text, id, role)];
    var r := RevokeSpec(cfg, o.store, steamid, server);
    assert r.reply == RoleRevoked(role);
    assert r.store.remote == o.store.remote[src := RemoveRole(AddRole(text, id, role), id, role)];
    assert RemoveRole(AddRole(text, id, role), id, role) == text by {
      RemoveRoleAfterAddRole(text, id, role);
    }
    RestoreEntry(st.remote, src, AddRole(text, id, role));
  }

  /**
   * A role file whose last line is the player's only mention: their entry, with no line break
   * after it.
   */
  predicate UnterminatedEntry(cfg: Config, st: Store, steamid: string, before: string, role: string, server: string)
    requires server in cfg.ports
  {
    && CleanSteamId64(steamid).Some? && RemotePath(cfg, server, RaFile) in st.remote
    && var id := CleanSteamId64(steamid).value;
    && st.remote[RemotePath(cfg, server, RaFile)] == before + "\n" + MemberEntry(id, role)
    && !Contains(before, id) && role != "" && '\n' !in role
    && !Contains(role, RoleMarker(id)) && !Contains(role, EscapedNewline)
  }

  /**
   * `remove_role` on such a file replies that the role was revoked and pushes the file, but the
   * pushed file is the one it fetched, so the player keeps the role.
   */
  lemma RevokeOfUnterminatedEntry(cfg: Config, st: Store, steamid: string, before: string, role: string, server: string)
    requires server in cfg.ports && UnterminatedEntry(cfg, st, steamid, before, role, server)
    ensures var r := RevokeSpec(cfg, st, steamid, server);
      && r.reply == RoleRevoked(role)
      && r.store.transfers == st.transfers + [Fetched(server, RaFile), Pushed(server, RaFile)]
      && r.store.remote == st.remote
      && FindRole(Lines(r.store.remote[RemotePath(cfg, server, RaFile)]), CleanSteamId64(steamid).value) == Ok(Some(role))
  {
    var src := RemotePath(cfg, server, RaFile);
    var text := st.remote[src];
    var id := CleanSteamId64(steamid).value;
    RemoveRoleMissesLastEntry(before, id, role);
    var r := RevokeSpec(cfg, st, steamid, server);
    assert r.reply == RoleRevoked(role);
    assert r.store.remote == st.remote[src := text];
    assert r.store.transfers == st.transfers + [Fetched(server, RaFile)] + [Pushed(server, RaFile)];
  }

  /** The corrected command on the same file reports the failure and pushes nothing. */
  lemma RevokeFixedOfUnterminatedEntry(cfg: Config, st: Store, steamid: string, before: string, role: string, server: string)
    requires server in cfg.ports && UnterminatedEntry(cfg, st, steamid, before, role, server)
    ensures var r := RevokeSpecFixed(cfg, st, steamid, server);
      && r.reply == RoleNotRemoved(role)
      && r.store.transfers == st.transfers + [Fetched(server, RaFile)]
      && r.store.remote == st.remote
  {
    RevokeOfUnterminatedEntry(cfg, st, steamid, before, role, server);
    RemoveRoleMissesLastEntry(before, CleanSteamId64(steamid).value, role);
  }

  /**
   * Adding a player who is not mentioned to a membership file, then removing them, leaves the
   * remote file as it was before.
   */
  lemma AddThenRemoveRestores(cfg: Config, st: Store, steamid: string, server: string, kind: FileKind)
    requires server in cfg.ports && CleanSteamId64(steamid).Some?
    requires RemotePath(cfg, server, kind) in st.remote
    requires !InMiscellaneous(st.remote[RemotePath(cfg, server, kind)], CleanSteamId64(steamid).value)
    ensures var o := MembershipSpec(cfg, st, steamid, Add, server, kind);
      var r := MembershipSpec(cfg, o.store, steamid, Remove, server, kind);
      && o.reply == MemberAdded && r.reply == MemberRemoved
      && r.store.remote == st.remote
  {
    var src := RemotePath(cfg, server, kind);
    var text := st.remote[src];
    var id := CleanSteamId64(steamid).value;
    var o := MembershipSpec(cfg, st, steamid, Add, server, kind);
    assert o.reply == MemberAdded;
    assert o.store.remote == st.remote[src := AddMiscellaneous(text, id)];
    var r := MembershipSpec(cfg, o.store, steamid, Remove, server, kind);
    assert r.reply == MemberRemoved;
    assert r.store.remote == o.store.remote[src := RemoveMiscellaneous(AddMiscellaneous(text, id), id)];
    assert RemoveMiscellaneous(AddMiscellaneous(text, id), id) == text by {
      RemoveAfterAddMiscellaneous(text, id);
    }
    RestoreEntry(st.remote, src, AddMiscellaneous(text, id));
  }

  /**
   * After a successful add, adding the same player again changes nothing and pushes nothing.
   * This follows directly from unfolding `MembershipSpec` twice.
   */
  lemma AddTwiceIsAlreadyMember(cfg: Config, st: Store, steamid: string, server: string, kind: FileKind)
    requires server in cfg.ports
    requires MembershipSpec(cfg, st, steamid, Add, server, kind).reply == MemberAdded
    ensures var o := MembershipSpec(cfg, st, steamid, Add, server, kind);
      var again := MembershipSpec(cfg, o.store, steamid, Add, server, kind);
      again.reply == AlreadyMember && again.store.remote == o.store.remote
  {
    var src := RemotePath(cfg, server, kind);
    var o := MembershipSpec(cfg, st, steamid, Add, server, kind);
    var id := CleanSteamId64(steamid).value;
    assert o.store.remote[src] == AddMiscellaneous(st.remote[src], id);
  }

  // ---------------------------------------------------------------------------
  // the store and the commands as methods
  // ---------------------------------------------------------------------------

  /** The remote files, the bot's local copies of them and the transfers made so far. */
  class FileStore {
    const cfg: Config
    var remote: map<string, string>
    var local: map<string, string>
    var transfers: seq<Transfer>

    function State(): Store
      reads this
    {
      Store(remote, local, transfers)
    }

    constructor (cfg: Config, remote: map<string, string>)
      ensures this.cfg == cfg && State() == Store(remote, map[], [])
    {
      this.cfg := cfg;
      this.remote := remote;
      local := map[];
      transfers := [];
    }

    /** `File.get(server, kind)`: copies the remote file over the local copy. */
    method Get(server: string, kind: FileKind) returns (ok: bool)
      requires server in cfg.ports
      modifies this
      ensures ok == Fetch(cfg, old(State()), server, kind).Some?
      ensures State() == if ok then Fetch(cfg, old(State()), server, kind).value else old(State())
    {
      var src := RemotePath(cfg, server, kind);
      ok := src in remote;
      if ok {
        local := local[LocalPath(cfg, server, kind) := remote[src]];
        transfers := transfers + [Fetched(server, kind)];
      }
    }

    /** `File.put(server, kind)`: copies the local file over the remote one. */
    method Put(server: string, kind: FileKind)
      requires server in cfg.ports && LocalPath(cfg, server, kind) in local
      modifies this
      ensures State() == Push(cfg, old(State()), server, kind)
    {
      remote := remote[RemotePath(cfg, server, kind) := local[LocalPath(cfg, server, kind)]];
      transfers := transfers + [Pushed(server, kind)];
    }

    /** `File.read(path)`. */
    method Read(path: string) returns (text: string)
      requires path in local
      ensures text == local[path]
    {
      text := local[path];
    }

    /** `File.write(path, text)`. */
    method Write(path: string, text: string)
      modifies this
      ensures State() == old(State()).(local := old(local)[path := text])
    {
      local := local[path := text];
    }
  }

  /** `server_roles`. */
  method ServerRoles(store: FileStore, server: string, requestedRoleMissing: bool) returns (reply: Reply)
    requires server in store.cfg.ports
    modifies store
    ensures Outcome(reply, store.State()) == ServerRolesSpec(store.cfg, old(store.State()), server, requestedRoleMissing)
  {
    var ok := store.Get(server, RaFile);
    if !ok {
      return TransferFailed;
    }
    var text := store.Read(LocalPath(store.cfg, server, RaFile));
    var roles := GetRoles(text);
    if roles.Err? {
      return Crashed(roles.error);
    }
    reply := RolesListed(roles.value, requestedRoleMissing);
  }

  /** `grant_role`, after its SteamID and prohibited-role checks. */
  method GrantRole(store: FileStore, steamid: string, role: string, server: string) returns (reply: Reply)
    requires server in store.cfg.ports
    modifies store
    ensures Outcome(reply, store.State()) == GrantSpec(store.cfg, old(store.State()), steamid, role, server)
  {
    var cleaned := CleanSteamId64(steamid);
    if cleaned.None? {
      return InvalidSteamId;
    }
    var id := cleaned.value;
    if role in store.cfg.prohibitedRoles {
      return ProhibitedRole;
    }
    var ok := store.Get(server, RaFile);
    if !ok {
      return TransferFailed;
    }
    var path := LocalPath(store.cfg, server, RaFile);
    var text := store.Read(path);
    var oldRole := GetRole(id, text);
    if oldRole.Err? {
      return Crashed(oldRole.error);
    }
    var listed := ContainsRole(role, text);
    if listed.Err? {
      return Crashed(listed.error);
    }
    if !listed.value {
      reply := ServerRoles(store, server, true);
      return;
    }
    if oldRole.value == Some(role) {
      return AlreadyHasRole;
    } else if oldRole.value.Some? && oldRole.value.value != "" {
      store.Write(path, ChangeRole(text, id, oldRole.value.value, role));
      store.Put(server, RaFile);
      return RoleChanged(oldRole.value.value, role);
    } else {
      store.Write(path, AddRole(text, id, role));
      store.Put(server, RaFile);
      return RoleGranted(role);
    }
  }

  /** `remove_role`, after its SteamID check. */
  method RevokeRole(store: FileStore, steamid: string, server: string) returns (reply: Reply)
    requires server in store.cfg.ports
    modifies store
    ensures Outcome(reply, store.State()) == RevokeSpec(store.cfg, old(store.State()), steamid, server)
  {
    var cleaned := CleanSteamId64(steamid);
    if cleaned.None? {
      return InvalidSteamId;
    }
    var id := cleaned.value;
    var ok := store.Get(server, RaFile);
    if !ok {
      return TransferFailed;
    }
    var path := LocalPath(store.cfg, server, RaFile);
    var text := store.Read(path);
    var oldRole := GetRole(id, text);
    if oldRole.Err? {
      return Crashed(oldRole.error);
    }
    if oldRole.value.None? || oldRole.value.value == "" {
      return HasNoRole;
    }
    store.Write(path, RemoveRole(text, id, oldRole.value.value));
    store.Put(server, RaFile);
    reply := RoleRevoked(oldRole.value.value);
  }

  /** `remove_role` as evidently intended: no push, and a different reply, when nothing is deleted. */
  method RevokeRoleFixed(store: FileStore, steamid: string, server: string) returns (reply: Reply)
    requires server in store.cfg.ports
    modifies store
    ensures Outcome(reply, store.State()) == RevokeSpecFixed(store.cfg, old(store.State()), steamid, server)
  {
    var cleaned := CleanSteamId64(steamid);
    if cleaned.None? {
      return InvalidSteamId;
    }
    var id := cleaned.value;
    var ok := store.Get(server, RaFile);
    if !ok {
      return TransferFailed;
    }
    var path := LocalPath(store.cfg, server, RaFile);
    var text := store.Read(path);
    var oldRole := GetRole(id, text);
    if oldRole.Err? {
      return Crashed(oldRole.error);
    }
    if oldRole.value.None? || oldRole.value.value == "" {
      return HasNoRole;
    }
    var updated := RemoveRole(text, id, oldRole.value.value);
    if updated == text {
      return RoleNotRemoved(oldRole.value.value);
    }
    store.Write(path, updated);
    store.Put(server, RaFile);
    reply := RoleRevoked(oldRole.value.value);
  }

  /** The body `white_list` and `reserved_slots` share, on the file of the given kind. */
  method ManageMembership(store: FileStore, steamid: string, action: Action, server: string, kind: FileKind)
      returns (reply: Reply)
    requires server in store.cfg.ports
    modifies store
    ensures Outcome(reply, store.State()) == MembershipSpec(store.cfg, old(store.State()), steamid, action, server, kind)
  {
    var cleaned := CleanSteamId64(steamid);
    if cleaned.None? {
      return InvalidSteamId;
    }
    var id := cleaned.value;
    var ok := store.Get(server, kind);
    if !ok {
      return TransferFailed;
    }
    var path := LocalPath(store.cfg, server, kind);
    var text := store.Read(path);
    var present := InMiscellaneous(text, id);
    match action {
      case Add =>
        if present {
          return AlreadyMember;
        }
        store.Write(path, AddMiscellaneous(text, id));
        store.Put(server, kind);
        reply := MemberAdded;
      case Remove =>
        if !present {
          return NotMember;
        }
        store.Write(path, RemoveMiscellaneous(text, id));
        store.Put(server, kind);
        reply := MemberRemoved;
    }
  }

  /** `white_list`. */
  method WhiteList(store: FileStore, steamid: string, action: Action, server: string) returns (reply: Reply)
    requires server in store.cfg.ports
    modifies store
    ensures Outcome(reply, store.State()) == MembershipSpec(store.cfg, old(store.State()), steamid, action, server, WhitelistFile)
  {
    reply := ManageMembership(store, steamid, action, server, WhitelistFile);
  }

  /** `reserved_slots`. */
  method ReservedSlots(store: FileStore, steamid: string, action: Action, server: string) returns (reply: Reply)
    requires server in store.cfg.ports
    modifies store
    ensures Outcome(reply, store.State()) == MembershipSpec(store.cfg, old(store.State()), steamid, action, server, ReservedSlotsFile)
  {
    reply := ManageMembership(store, steamid, action, server, ReservedSlotsFile);
  }
}
