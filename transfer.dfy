/**
 * `transferOwnership`: list the file's permissions, reuse the recipient's
 * permission or create one, mark it as the pending owner, then send the Gmail
 * notification. Any failure of list, create or update is caught at the end of
 * the function and skips every later step; a failure of the send is caught
 * inside the notifier.
 */
module Transfer {
  import opened Wrappers
  import opened Drive
  import Notifier

  /** The remote calls whose failure ends the workflow. */
  datatype Step = ListPermissions | CreatePermission | UpdatePermission

  /**
   * What a run reports: the step whose failure was caught, or the permission
   * marked as pending owner, whether it had to be created, and whether the
   * notification was sent.
   */
  datatype Outcome =
    | Aborted(failed: Step)
    | Initiated(permissionId: string, created: bool, notified: bool)

  /** Which remote calls fail in a run; the services decide, not the script. */
  datatype Faults = Faults(list: bool, create: bool, update: bool, send: bool)

  const NoFaults: Faults := Faults(false, false, false, false)

  /** The update request body: `role: "writer", pendingOwner: true`. */
  const PendingOwnerPatch: PermissionPatch := PermissionPatch(Writer, true)

  /** A run on values: the permissions afterwards, the messages sent, the outcome. */
  datatype Run = Run(permissions: seq<Permission>, sent: seq<string>, outcome: Outcome)

  /** The workflow as a function of the permissions before it and the failures it meets. */
  function Expected(perms: seq<Permission>, fileId: string, email: string, faults: Faults): (r: Run)
    ensures |perms| <= |r.permissions| <= |perms| + 1
    ensures r.outcome.Aborted? ==> r.sent == []
    ensures r.outcome.Aborted? && r.outcome.failed != UpdatePermission ==> r.permissions == perms
    ensures r.outcome == Aborted(ListPermissions) <==> faults.list
    ensures r.outcome.Initiated? ==> |r.sent| <= 1 && (r.outcome.notified <==> r.sent != [])
  {
    if faults.list then Run(perms, [], Aborted(ListPermissions))
    else
      var page := FirstPage(perms);
      var found := FindByEmail(page, email);
      if found.None? && faults.create then Run(perms, [], Aborted(CreatePermission))
      else
        var created := found.None?;
        var id := if created then FreshId(perms) else page[found.value].id;
        var listed := if created then perms + [NewPermission(id, email)] else perms;
        if faults.update || IndexOfId(listed, id).None? then Run(listed, [], Aborted(UpdatePermission))
        else
          Run(UpdateById(listed, id, PendingOwnerPatch),
              if faults.send then [] else [Notifier.RawMessage(email, fileId)],
              Initiated(id, created, !faults.send))
  }

  /** The script's steps in order, against the Drive file and the mail service. */
  method TransferOwnership(
    drive: DriveFile, gmail: Notifier.Mailbox, fileId: string, newOwnerEmail: string, faults: Faults)
    returns (outcome: Outcome)
    requires drive.Valid() && drive.id == fileId
    modifies drive, gmail
    ensures drive.Valid()
    ensures var run := Expected(old(drive.permissions), fileId, newOwnerEmail, faults);
      && drive.permissions == run.permissions
      && gmail.sent == old(gmail.sent) + run.sent
      && outcome == run.outcome
  {
    var res1 := drive.List(faults.list);
    if res1.Failure? {
      return Aborted(ListPermissions);
    }
    var permission := FindByEmail(res1.value, newOwnerEmail);
    var permissionId := "";
    var created := false;
    if permission.Some? {
      permissionId := res1.value[permission.value].id;
    } else {
      var res := drive.Create(newOwnerEmail, faults.create);
      if res.Failure? {
        return Aborted(CreatePermission);
      }
      permissionId := res.value;
      created := true;
    }
    var res2 := drive.Update(permissionId, PendingOwnerPatch, faults.update);
    if res2.Failure? {
      return Aborted(UpdatePermission);
    }
    var notified := Notifier.SendGmailNotification(gmail, newOwnerEmail, fileId, faults.send);
    return Initiated(permissionId, created, notified);
  }

  // ---------------------------------------------------------------------------
  // Properties of the workflow

  /** The permission a run resolves, when the list call succeeds: an index in the list after create. */
  lemma ResolvedPresent(perms: seq<Permission>, email: string)
    ensures var found := FindByEmail(FirstPage(perms), email);
      var id := if found.None? then FreshId(perms) else FirstPage(perms)[found.value].id;
      var listed := if found.None? then perms + [NewPermission(id, email)] else perms;
      IndexOfId(listed, id).Some?
  {
    var page := FirstPage(perms);
    var found := FindByEmail(page, email);
    if found.None? {
      var id := FreshId(perms);
      var listed := perms + [NewPermission(id, email)];
      assert ((q: Permission) => q.id == id)(listed[|perms|]);
    } else {
      var k := found.value;
      assert page[k] == perms[k];
      assert ((q: Permission) => q.id == page[k].id)(perms[k]);
    }
  }

  /**
   * A run fails with an update error only when the update call fails: the id
   * it updates always names a permission of the file.
   */
  lemma UpdateFailsOnlyWhenCallFails(perms: seq<Permission>, fileId: string, email: string, faults: Faults)
    requires !faults.update
    ensures Expected(perms, fileId, email, faults).outcome != Aborted(UpdatePermission)
  {
    ResolvedPresent(perms, email);
  }

  /**
   * If the recipient's first permission is within the first page, the run
   * reuses its id and creates nothing; the create call is never made.
   */
  lemma ReusesFirstMatch(perms: seq<Permission>, fileId: string, email: string, faults: Faults, k: nat)
    requires !faults.list
    requires k < |perms| && k < PageSize && Matches(perms[k], email)
    requires forall j :: 0 <= j < k ==> !Matches(perms[j], email)
    ensures var run := Expected(perms, fileId, email, faults);
      && |run.permissions| == |perms|
      && run.outcome != Aborted(CreatePermission)
      && (run.outcome.Initiated? ==> run.outcome.permissionId == perms[k].id && !run.outcome.created)
      && (!faults.update ==> run.outcome.Initiated?)
  {
    FindInFirstPage(perms, email, k);
    ResolvedPresent(perms, email);
  }

  /**
   * If no permission of the first page has the recipient's address, the run
   * appends exactly one writer grant to that user, under a fresh id, after
   * the unchanged earlier permissions.
   */
  lemma CreatesExactlyOne(perms: seq<Permission>, fileId: string, email: string, faults: Faults)
    requires !faults.list && !faults.create
    requires forall j :: 0 <= j < |perms| && j < PageSize ==> !Matches(perms[j], email)
    ensures var run := Expected(perms, fileId, email, faults); var id := FreshId(perms);
      && |run.permissions| == |perms| + 1
      && run.permissions[..|perms|] == perms
      && run.permissions[|perms|] == Permission(id, Writer, User, Some(email), !faults.update)
      && (forall i :: 0 <= i < |perms| ==> perms[i].id != id)
      && (run.outcome.Initiated? ==> run.outcome.permissionId == id && run.outcome.created)
  {
    var page := FirstPage(perms);
    var found := FindByEmail(page, email);
    assert found.None?;
    var id := FreshId(perms);
    var listed := perms + [NewPermission(id, email)];
    FirstIndexAt(listed, (q: Permission) => q.id == id, |perms|);
    assert listed[..|perms|] == perms;
  }

  /**
   * A completed run changes only the resolved permission, and on it only the
   * role, now "writer", and the pending-owner flag, now set; the resolved
   * permission is the recipient's.
   */
  lemma MarksOnlyResolved(perms: seq<Permission>, fileId: string, email: string, faults: Faults)
    requires UniqueIds(perms)
    requires Expected(perms, fileId, email, faults).outcome.Initiated?
    ensures var run := Expected(perms, fileId, email, faults); var id := run.outcome.permissionId;
      && |run.permissions| == |perms| + (if run.outcome.created then 1 else 0)
      && (forall i :: 0 <= i < |perms| && perms[i].id != id ==> run.permissions[i] == perms[i])
      && (forall i :: 0 <= i < |perms| && perms[i].id == id ==>
            run.permissions[i] == ApplyPatch(perms[i], PendingOwnerPatch))
      && (run.outcome.created ==> run.permissions[|perms|] == Permission(id, Writer, User, Some(email), true))
      && (forall i :: 0 <= i < |run.permissions| && run.permissions[i].id == id ==>
            run.permissions[i].role == Writer && run.permissions[i].pendingOwner && Matches(run.permissions[i], email))
  {
    var run := Expected(perms, fileId, email, faults);
    var page := FirstPage(perms);
    var found := FindByEmail(page, email);
    var id := run.outcome.permissionId;
    if found.None? {
      var listed := perms + [NewPermission(id, email)];
      FirstIndexAt(listed, (q: Permission) => q.id == id, |perms|);
    } else {
      var k := found.value;
      assert page[k] == perms[k];
      assert ((q: Permission) => Matches(q, email))(page[k]);
      UpdateOnlyNamed(perms, k, PendingOwnerPatch);
    }
  }

  /** No run makes anyone an owner: every owner afterwards was that same owner before. */
  lemma NeverGrantsOwnership(perms: seq<Permission>, fileId: string, email: string, faults: Faults)
    requires UniqueIds(perms)
    ensures var run := Expected(perms, fileId, email, faults);
      forall i :: 0 <= i < |run.permissions| && run.permissions[i].role == Owner ==>
        i < |perms| && run.permissions[i] == perms[i]
  {
    var run := Expected(perms, fileId, email, faults);
    if run.outcome.Initiated? {
      MarksOnlyResolved(perms, fileId, email, faults);
    }
  }

  /** Ids stay unique: a created permission gets a fresh id and an update keeps ids. */
  lemma PreservesUniqueIds(perms: seq<Permission>, fileId: string, email: string, faults: Faults)
    requires UniqueIds(perms)
    ensures UniqueIds(Expected(perms, fileId, email, faults).permissions)
  {
    var run := Expected(perms, fileId, email, faults);
    if !faults.list {
      var found := FindByEmail(FirstPage(perms), email);
      if found.None? && !faults.create {
        var id := FreshId(perms);
        var listed := perms + [NewPermission(id, email)];
        assert UniqueIds(listed);
        if !faults.update {
          FirstIndexAt(listed, (q: Permission) => q.id == id, |perms|);
          UpdateOnlyNamed(listed, |perms|, PendingOwnerPatch);
        }
      } else if found.Some? && !faults.update {
        var k := found.value;
        assert FirstPage(perms)[k] == perms[k];
        UpdateOnlyNamed(perms, k, PendingOwnerPatch);
      }
    }
  }

  /**
   * The notification is sent exactly when list, the create it needs, update
   * and send all succeed, and then it is the one message for this recipient
   * and file.
   */
  lemma NotifiesOnlyAfterSuccess(perms: seq<Permission>, fileId: string, email: string, faults: Faults)
    ensures var run := Expected(perms, fileId, email, faults);
      var needsCreate := FindByEmail(FirstPage(perms), email).None?;
      && (run.sent != [] <==> !faults.list && !(needsCreate && faults.create) && !faults.update && !faults.send)
      && (run.sent != [] ==> run.sent == [Notifier.RawMessage(email, fileId)])
      && (run.outcome.Initiated? ==> run.outcome.notified == (run.sent != []))
  {
    ResolvedPresent(perms, email);
  }

  /**
   * A failed send is swallowed: the permissions and the reported transfer are
   * those of the same run with a successful send, save the notified flag.
   */
  lemma SendFailureSwallowed(perms: seq<Permission>, fileId: string, email: string, faults: Faults)
    ensures var failed := Expected(perms, fileId, email, faults.(send := true));
      var delivered := Expected(perms, fileId, email, faults.(send := false));
      && failed.permissions == delivered.permissions
      && failed.sent == []
      && failed.outcome.Initiated? == delivered.outcome.Initiated?
      && (delivered.outcome.Initiated? ==> failed.outcome == delivered.outcome.(notified := false))
      && (delivered.outcome.Aborted? ==> failed.outcome == delivered.outcome)
  {
  }

  /**
   * Where the permission a completed run resolved ends up: at index `k`, with
   * the recipient's address, role "writer" and the pending-owner flag, and no
   * earlier permission of the first page has that address.
   */
  lemma ResolvedIndex(perms: seq<Permission>, fileId: string, email: string, faults: Faults) returns (k: nat)
    requires UniqueIds(perms)
    requires Expected(perms, fileId, email, faults).outcome.Initiated?
    ensures var run := Expected(perms, fileId, email, faults);
      && k <= |perms| && (k < |perms| ==> k < PageSize) && k < |run.permissions|
      && run.permissions[k].id == run.outcome.permissionId
      && Matches(run.permissions[k], email)
      && run.permissions[k].role == Writer && run.permissions[k].pendingOwner
      && (forall j :: 0 <= j < k && j < PageSize ==> !Matches(run.permissions[j], email))
  {
    var run := Expected(perms, fileId, email, faults);
    var page := FirstPage(perms);
    var found := FindByEmail(page, email);
    MarksOnlyResolved(perms, fileId, email, faults);
    k := if found.None? then |perms| else found.value;
    if found.Some? {
      assert page[k] == perms[k];
      assert ((q: Permission) => Matches(q, email))(page[k]);
    }
    forall j | 0 <= j < k && j < PageSize ensures !Matches(run.permissions[j], email) {
      assert page[j] == perms[j];
      assert !((q: Permission) => Matches(q, email))(page[j]);
      assert run.permissions[j].emailAddress == perms[j].emailAddress;
    }
  }

  /**
   * Running again after a completed run, when the file had fewer than a page
   * of permissions, finds the permission the first run resolved, creates
   * nothing, and leaves the permissions as they were.
   */
  lemma SecondRunReuses(perms: seq<Permission>, fileId: string, email: string, faults: Faults)
    requires UniqueIds(perms) && |perms| < PageSize
    requires Expected(perms, fileId, email, faults).outcome.Initiated?
    ensures var first := Expected(perms, fileId, email, faults);
      var second := Expected(first.permissions, fileId, email, NoFaults);
      && second.permissions == first.permissions
      && second.outcome == Initiated(first.outcome.permissionId, false, true)
  {
    var after := Expected(perms, fileId, email, faults).permissions;
    var k := ResolvedIndex(perms, fileId, email, faults);
    PreservesUniqueIds(perms, fileId, email, faults);
    FindInFirstPage(after, email, k);
    UpdateOnlyNamed(after, k, PendingOwnerPatch);
    assert after[k := ApplyPatch(after[k], PendingOwnerPatch)] == after;
  }

  /**
   * The list call reads one page only: when the recipient's permissions all
   * lie beyond the first page, the script issues a create for that address
   * anyway. The run stops at the create if that call fails, and otherwise
   * reports a created permission.
   */
  lemma CreatesBeyondFirstPage(perms: seq<Permission>, fileId: string, email: string, faults: Faults, k: nat)
    requires !faults.list
    requires PageSize <= k < |perms| && Matches(perms[k], email)
    requires forall j :: 0 <= j < PageSize ==> !Matches(perms[j], email)
    ensures var run := Expected(perms, fileId, email, faults);
      && (faults.create ==> run.outcome == Aborted(CreatePermission))
      && (run.outcome.Initiated? ==> run.outcome.created && run.outcome.permissionId != perms[k].id)
      && (!faults.create && !faults.update ==> run.outcome.Initiated?)
  {
    if !faults.create {
      CreatesExactlyOne(perms, fileId, email, faults);
      ResolvedPresent(perms, email);
    }
  }

  /**
   * On a file with no permissions a run without failures creates one writer
   * grant for the recipient, marks it pending owner, and sends the message.
   */
  lemma FirstGrantOnEmptyFile(fileId: string, email: string)
    ensures var run := Expected([], fileId, email, NoFaults);
      var id := FreshId([]);
      && run.permissions == [Permission(id, Writer, User, Some(email), true)]
      && run.outcome == Initiated(id, true, true)
      && run.sent == [Notifier.RawMessage(email, fileId)]
  {
    var id := FreshId([]);
    var listed := [NewPermission(id, email)];
    assert FindByEmail(FirstPage([]), email) == None;
    assert [] + [NewPermission(id, email)] == listed;
    assert IndexOfId(listed, id) == Some(0);
    assert UpdateById(listed, id, PendingOwnerPatch) == [Permission(id, Writer, User, Some(email), true)];
  }

  /**
   * The end-to-end scenario: file "F1", recipient "user@example.com", no
   * permission yet. One writer permission is created and marked pending
   * owner, and the message sent links to the file.
   */
  lemma NewRecipientScenario()
    ensures var email := "user@example.com";
      var run := Expected([], "F1", email, NoFaults);
      var id := FreshId([]);
      && run.permissions == [Permission(id, Writer, User, Some(email), true)]
      && run.outcome == Initiated(id, true, true)
      && run.sent == [Notifier.RawMessage(email, "F1")]
  {
    FirstGrantOnEmptyFile("F1", "user@example.com");
  }
}
