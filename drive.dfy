/**
 * The file's sharing permissions as the Drive service holds them, and the
 * three permission calls the workflow makes: list, create and update. Each
 * call takes `fails`, the service's answer, which is decided outside the
 * model (network, quota, authorisation).
 */
module Drive {
  import opened Wrappers

  datatype Role = Owner | Organizer | FileOrganizer | Writer | Commenter | Reader

  /** The permission's `type`. */
  datatype Grantee = User | Group | Domain | Anyone

  /** A permission; grants to a domain or to anyone carry no e-mail address. */
  datatype Permission = Permission(
    id: string,
    role: Role,
    kind: Grantee,
    emailAddress: Option<string>,
    pendingOwner: bool)

  /** The fields an update request sets; the others keep their values. */
  datatype PermissionPatch = PermissionPatch(role: Role, pendingOwner: bool)

  /** The `pageSize` of the list request: the service returns at most this many permissions. */
  const PageSize: nat := 100

  /** The `find` callback: strict equality with the address, absent addresses never equal. */
  predicate Matches(p: Permission, email: string) {
    p.emailAddress == Some(email)
  }

  /** The service never gives two permissions of one file the same id. */
  predicate UniqueIds(perms: seq<Permission>) {
    forall i, j :: 0 <= i < j < |perms| ==> perms[i].id != perms[j].id
  }

  /** The permissions one list call returns: the first page. */
  function FirstPage(perms: seq<Permission>): (page: seq<Permission>)
    ensures |page| <= PageSize && page <= perms
    ensures |perms| <= PageSize ==> page == perms
  {
    if |perms| <= PageSize then perms else perms[..PageSize]
  }

  /** `Array.prototype.find`, as the index of the first element satisfying `p`. */
  function FirstIndex(perms: seq<Permission>, p: Permission -> bool): (r: Option<nat>)
    ensures r.Some? ==> r.value < |perms| && p(perms[r.value])
    ensures r.Some? ==> forall j :: 0 <= j < r.value ==> !p(perms[j])
    ensures r.None? ==> forall j :: 0 <= j < |perms| ==> !p(perms[j])
    decreases |perms|
  {
    if perms == [] then None
    else if p(perms[0]) then Some(0)
    else match FirstIndex(perms[1..], p)
      case None => None
      case Some(k) => Some(k + 1)
  }

  /** The first index satisfying `p` is the one before which nothing does. */
  lemma FirstIndexAt(perms: seq<Permission>, p: Permission -> bool, k: nat)
    requires k < |perms| && p(perms[k])
    requires forall j :: 0 <= j < k ==> !p(perms[j])
    ensures FirstIndex(perms, p) == Some(k)
  {
  }

  /** The first permission whose address is exactly `email`. */
  function FindByEmail(perms: seq<Permission>, email: string): (r: Option<nat>)
    ensures r.Some? ==> r.value < |perms| && Matches(perms[r.value], email)
    ensures r.Some? ==> forall j :: 0 <= j < r.value ==> !Matches(perms[j], email)
    ensures r.None? ==> forall j :: 0 <= j < |perms| ==> !Matches(perms[j], email)
  {
    FirstIndex(perms, (q: Permission) => Matches(q, email))
  }

  /** The permission an update names. */
  function IndexOfId(perms: seq<Permission>, id: string): (r: Option<nat>)
    ensures r.Some? ==> r.value < |perms| && perms[r.value].id == id
    ensures r.Some? ==> forall j :: 0 <= j < r.value ==> perms[j].id != id
    ensures r.None? ==> forall j :: 0 <= j < |perms| ==> perms[j].id != id
  {
    FirstIndex(perms, (q: Permission) => q.id == id)
  }

  /** An upper bound on the length of the ids in use. */
  function MaxIdLength(perms: seq<Permission>): (n: nat)
    ensures forall i :: 0 <= i < |perms| ==> |perms[i].id| <= n
    decreases |perms|
  {
    if perms == [] then 0
    else
      var rest := MaxIdLength(perms[1..]);
      assert forall i :: 1 <= i < |perms| ==> perms[i] == perms[1..][i - 1];
      if |perms[0].id| > rest then |perms[0].id| else rest
  }

  /** The id the service gives a new permission: one that no permission of the file has. */
  function FreshId(perms: seq<Permission>): (id: string)
    ensures forall i :: 0 <= i < |perms| ==> perms[i].id != id
  {
    seq(MaxIdLength(perms) + 1, i => 'p')
  }

  /** The permission the create request asks for. */
  function NewPermission(id: string, email: string): Permission
  {
    Permission(id, Writer, User, Some(email), false)
  }

  function ApplyPatch(p: Permission, patch: PermissionPatch): Permission
  {
    p.(role := patch.role, pendingOwner := patch.pendingOwner)
  }

  /** The list after an update of the permission with that id; unchanged if there is none. */
  function UpdateById(perms: seq<Permission>, id: string, patch: PermissionPatch): (r: seq<Permission>)
    ensures |r| == |perms|
    ensures forall i :: 0 <= i < |r| ==> r[i] == perms[i] || r[i] == ApplyPatch(perms[i], patch)
    ensures forall i :: 0 <= i < |r| && perms[i].id != id ==> r[i] == perms[i]
  {
    match IndexOfId(perms, id)
    case None => perms
    case Some(k) => perms[k := ApplyPatch(perms[k], patch)]
  }

  /** Among unique ids, a permission's id finds that permission. */
  lemma IndexOfUniqueId(perms: seq<Permission>, k: nat)
    requires UniqueIds(perms) && k < |perms|
    ensures IndexOfId(perms, perms[k].id) == Some(k)
  {
    var r := IndexOfId(perms, perms[k].id);
    assert ((q: Permission) => q.id == perms[k].id)(perms[k]);
  }

  /**
   * Updating by id changes exactly the permission with that id, and only the
   * fields the patch names.
   */
  lemma UpdateOnlyNamed(perms: seq<Permission>, k: nat, patch: PermissionPatch)
    requires UniqueIds(perms) && k < |perms|
    ensures UpdateById(perms, perms[k].id, patch) == perms[k := ApplyPatch(perms[k], patch)]
    ensures UniqueIds(UpdateById(perms, perms[k].id, patch))
  {
    IndexOfUniqueId(perms, k);
  }

  /** The first page holds the first match whenever that match is within the page. */
  lemma FindInFirstPage(perms: seq<Permission>, email: string, k: nat)
    requires k < |perms| && k < PageSize && Matches(perms[k], email)
    requires forall j :: 0 <= j < k ==> !Matches(perms[j], email)
    ensures FindByEmail(FirstPage(perms), email) == Some(k)
  {
    var page := FirstPage(perms);
    var r := FindByEmail(page, email);
    assert page[k] == perms[k];
    assert ((q: Permission) => Matches(q, email))(page[k]);
  }

  /** The remote file: its ordered list of permissions. */
  class DriveFile {
    /** The `fileId` every request about this file names. */
    const id: string
    var permissions: seq<Permission>

    ghost predicate Valid()
      reads this
    {
      UniqueIds(permissions)
    }

    constructor (fileId: string, initial: seq<Permission>)
      requires UniqueIds(initial)
      ensures Valid() && id == fileId && permissions == initial
    {
      id := fileId;
      permissions := initial;
    }

    /** `permissions.list` with `pageSize: 100`. */
    method List(fails: bool) returns (r: Result<seq<Permission>, RemoteError>)
      ensures r == if fails then Failure(RemoteError) else Success(FirstPage(permissions))
    {
      if fails {
        r := Failure(RemoteError);
      } else {
        r := Success(FirstPage(permissions));
      }
    }

    /** `permissions.create` of a writer grant to one user; the service picks the id. */
    method Create(emailAddress: string, fails: bool) returns (r: Result<string, RemoteError>)
      requires Valid()
      modifies this
      ensures Valid()
      ensures r.Failure? <==> fails
      ensures fails ==> permissions == old(permissions)
      ensures !fails ==>
        && r.value == FreshId(old(permissions))
        && permissions == old(permissions) + [NewPermission(r.value, emailAddress)]
    {
      if fails {
        r := Failure(RemoteError);
      } else {
        var id := FreshId(permissions);
        permissions := permissions + [NewPermission(id, emailAddress)];
        r := Success(id);
      }
    }

    /** `permissions.update`: sets the patch's fields on the permission with that id. */
    method Update(permissionId: string, patch: PermissionPatch, fails: bool)
      returns (r: Result<Permission, RemoteError>)
      requires Valid()
      modifies this
      ensures Valid()
      ensures r.Failure? <==> fails || IndexOfId(old(permissions), permissionId).None?
      ensures permissions == if r.Failure? then old(permissions) else UpdateById(old(permissions), permissionId, patch)
      ensures r.Success? ==>
        r.value.id == permissionId && r.value.role == patch.role && r.value.pendingOwner == patch.pendingOwner
    {
      var k := IndexOfId(permissions, permissionId);
      if fails || k.None? {
        r := Failure(RemoteError);
      } else {
        var p := ApplyPatch(permissions[k.value], patch);
        assert ((q: Permission) => q.id == permissionId)(permissions[k.value]);
        IndexOfUniqueId(permissions, k.value);
        UpdateOnlyNamed(permissions, k.value, patch);
        permissions := permissions[k.value := p];
        r := Success(p);
      }
    }
  }
}
