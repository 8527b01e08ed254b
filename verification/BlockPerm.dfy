/** Block-layer permissions: `bdrv_default_perms` and `bdrv_child_perm` of block.c.

    A permission mask is a set of `Perm` (the five BLK_PERM_* bits).  A pair (perm, shared) is
    what a parent takes on a node and what it lets the node's other parents take. */
module BlockPerm {

  datatype Perm = ConsistentRead | Write | WriteUnchanged | Resize | GraphMod

  type Perms = set<Perm>

  const ALL: Perms := {ConsistentRead, Write, WriteUnchanged, Resize, GraphMod}
  const PASSTHROUGH: Perms := {ConsistentRead, Write, WriteUnchanged, Resize}
  const UNCHANGED: Perms := {GraphMod}

  /** What one parent uses and what it shares. */
  datatype Use = Use(perm: Perms, shared: Perms)

  /** `a` restricts no more than `b`: it takes less and shares more. */
  predicate Looser(a: Use, b: Use) {
    a.perm <= b.perm && b.shared <= a.shared
  }

  /** Two parents of one node can live together. */
  predicate Compatible(a: Use, b: Use) {
    a.perm <= b.shared && b.perm <= a.shared
  }

  /** "There is no reason why anyone couldn't tolerate write_unchanged": what
      bdrv_check_update_perm asserts of every request. */
  predicate Sharing(u: Use) {
    WriteUnchanged in u.shared
  }

  /** BdrvChildRole, the bits that decide permissions */
  datatype Role = Role(data: bool, metadata: bool, filtered: bool, cow: bool)

  /** What the assertions of bdrv_default_perms accept. */
  predicate ValidRole(role: Role) {
    && (role.filtered ==> !role.data && !role.metadata && !role.cow)
    && (role.cow ==> !role.data && !role.metadata)
    && (role.filtered || role.cow || role.metadata || role.data)
  }

  /** BDRV_O_RDWR, BDRV_O_INACTIVE and BDRV_O_NO_IO of a node */
  datatype Flags = Flags(rdwr: bool, inactive: bool, noIo: bool)

  predicate Writable(f: Flags) {
    f.rdwr && !f.inactive
  }

  /** bdrv_filter_default_perms */
  function FilterPerms(u: Use): Use {
    Use(u.perm * PASSTHROUGH, u.shared * PASSTHROUGH + UNCHANGED)
  }

  /** bdrv_default_perms_for_cow */
  function CowPerms(f: Flags, u: Use): Use {
    var shared := if Write in u.shared then {Write, Resize} else {};
    var shared := shared + {ConsistentRead, GraphMod, WriteUnchanged};
    Use(u.perm * {ConsistentRead}, if f.inactive then shared + {Write, Resize} else shared)
  }

  /** bdrv_default_perms_for_storage */
  function StoragePerms(f: Flags, role: Role, u: Use): Use {
    var u0 := FilterPerms(u);
    var u1 :=
      if role.metadata then
        Use(u0.perm + (if Writable(f) then {Write, Resize} else {}) + (if f.noIo then {} else {ConsistentRead}),
            u0.shared - {Write, Resize})
      else u0;
    var u2 :=
      if role.data then
        var p := if WriteUnchanged in u1.perm then u1.perm + {Write} else u1.perm;
        Use(if Write in p then p + {Resize} else p, u1.shared - {Resize})
      else u1;
    Use(u2.perm, if f.inactive then u2.shared + {Write, Resize} else u2.shared)
  }

  /** bdrv_default_perms */
  function DefaultPerms(f: Flags, role: Role, u: Use): Use
    requires ValidRole(role)
  {
    if role.filtered then FilterPerms(u)
    else if role.cow then CowPerms(f, u)
    else StoragePerms(f, role, u)
  }

  /** bdrv_child_perm: the driver's answer, then `force_share` of the child node */
  function ChildPerm(f: Flags, role: Role, forceShare: bool, u: Use): (r: Use)
    requires ValidRole(role)
    ensures Sharing(u) ==> Sharing(r)
  {
    var r := DefaultPerms(f, role, u);
    if forceShare then r.(shared := ALL) else r
  }

  /** Which permissions a node takes on its child, one by one: what its users need of it, and what a
      format driver needs for itself on its metadata and data. */
  predicate Takes(f: Flags, role: Role, u: Use, x: Perm) {
    match x
    case ConsistentRead => x in u.perm || (role.metadata && !f.noIo)
    case Write =>
      !role.cow && (x in u.perm || (role.metadata && Writable(f)) || (role.data && WriteUnchanged in u.perm))
    case WriteUnchanged => !role.cow && x in u.perm
    case Resize =>
      && !role.cow
      && (x in u.perm || (role.metadata && Writable(f)) || (role.data && (Write in u.perm || WriteUnchanged in u.perm)))
    case GraphMod => false
  }

  /** Which permissions it lets the child's other users take: on metadata no writing and no resizing,
      on data no resizing, below a copy-on-write node both only if changing data can be dealt with;
      an inactive node minds neither. */
  predicate Lets(f: Flags, role: Role, u: Use, x: Perm) {
    match x
    case ConsistentRead => role.cow || x in u.shared
    case WriteUnchanged => role.cow || x in u.shared
    case GraphMod => true
    case Write => (!role.filtered && f.inactive) || (!role.metadata && Write in u.shared)
    case Resize =>
      (!role.filtered && f.inactive)
      || (if role.cow then Write in u.shared else !role.metadata && !role.data && Resize in u.shared)
  }

  /** bdrv_default_perms, permission by permission */
  lemma DefaultPermsAre(f: Flags, role: Role, u: Use, x: Perm)
    requires ValidRole(role)
    ensures x in DefaultPerms(f, role, u).perm <==> Takes(f, role, u, x)
    ensures x in DefaultPerms(f, role, u).shared <==> Lets(f, role, u, x)
  {
    if role.filtered {
    } else if role.cow {
    } else {
      match x
      case ConsistentRead =>
      case Write =>
      case WriteUnchanged =>
      case Resize =>
      case GraphMod =>
    }
  }

  /** Loosening a parent's use never tightens what the child is asked for. */
  lemma ChildPermMonotone(f: Flags, role: Role, forceShare: bool, a: Use, b: Use)
    requires ValidRole(role) && Looser(a, b)
    ensures Looser(ChildPerm(f, role, forceShare, a), ChildPerm(f, role, forceShare, b))
  {
  }

  /** Inactivating a node does not tighten what its child is asked for. */
  lemma InactiveLooser(f: Flags, role: Role, forceShare: bool, u: Use)
    requires ValidRole(role)
    ensures Looser(ChildPerm(f.(inactive := true), role, forceShare, u), ChildPerm(f, role, forceShare, u))
  {
  }

  lemma EveryPerm(x: Perm)
    ensures x in ALL
  {
  }
}
