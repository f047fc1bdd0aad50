/** Who may schedule: entry_daemon_authorize(), auth_daemon_local() and auth_daemon_remote_session_verify(). */
module Auth {
  import opened Entries
  import opened Wrappers

  /** The configured user and group lists. */
  datatype Lists = Lists(blackUid: set<nat>, whiteUid: set<nat>, blackGid: set<nat>, whiteGid: set<nat>)

  datatype Account = Account(uid: nat, gid: nat)

  /**
   * The far end of a connection: the credentials the kernel reports for a local peer, or the user record found
   * under the claimed name together with the outcome of the key exchange for a remote one.
   */
  datatype Peer = Local(credentials: Account) | Remote(record: Option<Account>, verified: bool) | Unknown

  const REMOTE_CLAIM := 0xff

  /** A non-empty blacklist decides alone; otherwise a non-empty whitelist does. */
  predicate Listed(black: set<nat>, white: set<nat>, x: nat) {
    if black != {} then x !in black else white != {} ==> x in white
  }

  predicate Permitted(l: Lists, a: Account) {
    Listed(l.blackUid, l.whiteUid, a.uid) && Listed(l.blackGid, l.whiteGid, a.gid)
  }

  /** Whom the lists let in: nobody on a blacklist, and with a whitelist that decides nobody who is not on it. */
  lemma PolicyIff(l: Lists, a: Account)
    ensures Permitted(l, a) <==>
            && a.uid !in l.blackUid && (l.blackUid == {} && l.whiteUid != {} ==> a.uid in l.whiteUid)
            && a.gid !in l.blackGid && (l.blackGid == {} && l.whiteGid != {} ==> a.gid in l.whiteGid)
  {
  }

  /** The account a request acts for, if its claim is acceptable from that peer. */
  function Identity(claim: Account, peer: Peer): Option<Account> {
    match peer
    case Local(c) => if claim == c then Some(c) else None
    case Remote(record, verified) =>
      if claim == Account(REMOTE_CLAIM, REMOTE_CLAIM) && record.Some? && verified then record else None
    case Unknown => None
  }

  /** entry_daemon_authorize(): 1 if authorized, 0 if the lists refuse, negative if the claim is not acceptable. */
  method Authorize(e: Entry, peer: Peer, l: Lists) returns (r: Entry, ret: int)
    ensures var who := Identity(Account(e.uid, e.gid), peer);
            && (ret < 0 <==> who.None?)
            && (ret < 0 ==> r == e)
            && (who.Some? ==> ret == (if Permitted(l, who.value) then 1 else 0))
            && (who.Some? ==> r == (if Permitted(l, who.value) then Set(e, AUTHORIZED) else Unset(e, AUTHORIZED))
                                   .(uid := who.value.uid, gid := who.value.gid))
  {
    r, ret := e, -1;
    match peer {
      case Local(c) =>
        if c.uid != e.uid || c.gid != e.gid { return; }
        ret := 1;
      case Remote(record, verified) =>
        if e.uid != REMOTE_CLAIM || e.gid != REMOTE_CLAIM { return; }
        if record.None? { return; }
        if !verified { return; }
        r := r.(uid := record.value.uid, gid := record.value.gid);
        ret := 1;
      case Unknown =>
        return;
    }
    if l.blackUid != {} {
      if r.uid in l.blackUid { ret := 0; }
    } else if l.whiteUid != {} {
      if r.uid !in l.whiteUid { ret := 0; }
    }
    if l.blackGid != {} {
      if r.gid in l.blackGid { ret := 0; }
    } else if l.whiteGid != {} {
      if r.gid !in l.whiteGid { ret := 0; }
    }
    r := if ret == 1 then Set(r, AUTHORIZED) else Unset(r, AUTHORIZED);
  }
}
