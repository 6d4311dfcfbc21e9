/**
 * What the directory operations Add, Del and Modify do to the stored entries: for each, the changes of
 * its one transaction or the error it answers with, and what it has changed in place by then. A listed
 * entry shares its attributes with the stored one, so an update of its memberships is seen at once.
 */
module Directory {
  import opened Wrappers
  import opened Text
  import opened Names
  import opened DirectoryStore

  function Ascii(s: string): (r: Str)
    ensures |r| == |s|
  {
    seq(|s|, i requires 0 <= i < |s| => s[i] as int % 0x100)
  }

  const MEMBER := Ascii("member")
  const MEMBEROF := Ascii("memberof")
  const OBJECTCLASS := Ascii("objectclass")
  const ENTRYUUID := Ascii("entryuuid")
  const CREATORSNAME := Ascii("creatorsname")
  const CREATETIMESTAMP := Ascii("createtimestamp")
  const MODIFIERSNAME := Ascii("modifiersname")
  const MODIFYTIMESTAMP := Ascii("modifytimestamp")
  const ENTRYCSN := Ascii("entrycsn")
  const TOP := Ascii("top")

  predicate Operational(attr: Str) {
    attr in [ENTRYUUID, CREATORSNAME, CREATETIMESTAMP, MODIFIERSNAME, MODIFYTIMESTAMP, ENTRYCSN]
  }

  predicate CanUpdate(attr: Str) {
    attr != MEMBEROF && !Operational(attr)
  }

  /** The error codes of the answers. */
  datatype Failure = InvalidDNSyntax | InsufficientAccessRights | EntryAlreadyExists | NoSuchObject
                   | ObjectClassViolation | NotAllowedOnNonLeaf | OperationsError

  datatype Result<T> = Ok(value: T) | Fail(failure: Failure)

  /** Clock, random source and caller of one request. */
  datatype Meta = Meta(user: Str, timestamp: Str, uuid: Str)

  datatype Attribute = Attribute(typ: Str, vals: seq<Str>)
  datatype AddRequest = AddRequest(entry: Str, attributes: seq<Attribute>)

  datatype Operation = Add | Delete | Replace
  datatype Modification = Modification(operation: Operation, typ: Str, vals: seq<Str>)
  datatype ModifyRequest = ModifyRequest(entry: Str, changes: seq<Modification>)

  /** `parseDN`: the name has to be the base or below it; if allowed, one above the base stands for it. */
  function ParseUnder(base: DN, raw: Str, allowPrefix: bool): Option<DN> {
    match ParseDN(raw)
    case None => None
    case Some(dn) => if Under(dn, base) then Some(dn) else if allowPrefix && Under(base, dn) then Some(base) else None
  }

  function Lookup(s: Contents, dn: DN): Option<Entry> {
    Exactly(s, Reverse(dn))
  }

  function Strings(dns: seq<DN>): (r: seq<Str>)
    ensures |r| == |dns|
  {
    seq(|dns|, i requires 0 <= i < |dns| => DNString(dns[i]))
  }

  /******* Membership *******/

  /**
   * What a step leaves: the stored entries, whose attribute maps it may have changed in place, and the
   * changes it logged or the error it met. An edit in place is there at once, and stays after an error.
   */
  datatype Effect = Effect(store: Contents, result: Result<seq<Change>>)

  /** An entry with one attribute set to other values. */
  function With(e: Entry, attr: Str, vals: seq<Str>): Entry {
    e.(attributes := e.attributes[attr := vals])
  }

  /** Sets an attribute in the map of the stored entry, and logs a copy of the entry. */
  function Rewrite(s: Contents, entity: Entry, attr: Str, vals: seq<Str>): Effect {
    var edited := With(entity, attr, vals);
    Effect(s[KeyOf(edited) := edited], Ok([Put(NewEntry(edited.dn, edited.attributes))]))
  }

  function MembershipAdd(s: Contents, attr: Str, member: DN, group: DN): Effect {
    match Lookup(s, member)
    case None => Effect(s, Fail(NoSuchObject))
    case Some(entity) =>
      var membership := entity.Get(attr);
      if DNString(group) in membership then Effect(s, Ok([]))
      else Rewrite(s, entity, attr, membership + [DNString(group)])
  }

  /** The memberships other than of `group`, rewritten; None when one is not a name below the base. */
  function Without(base: DN, membership: seq<Str>, group: DN): Option<seq<Str>> {
    if membership == [] then Some([])
    else
      var n := |membership| - 1;
      match Without(base, membership[..n], group)
      case None => None
      case Some(front) =>
        match ParseUnder(base, membership[n], false)
        case None => None
        case Some(gdn) => Some(if gdn == group then front else front + [DNString(gdn)])
  }

  /** `membershipRemove`, which gives up when as many memberships are left as the name has components. */
  function MembershipRemove(s: Contents, base: DN, attr: Str, member: DN, group: DN): Effect {
    match Lookup(s, member)
    case None => Effect(s, Fail(NoSuchObject))
    case Some(entity) =>
      match Without(base, entity.Get(attr), group)
      case None => Effect(s, Fail(InvalidDNSyntax))
      case Some(left) =>
        if |left| == |member| then Effect(s, Ok([])) else Rewrite(s, entity, attr, left)
  }

  /** After a step that went well, another; an error of the second is reported as `f`. */
  function Then(first: seq<Change>, second: Effect, f: Failure): Effect {
    match second.result
    case Fail(_) => Effect(second.store, Fail(f))
    case Ok(last) => Effect(second.store, Ok(first + last))
  }

  /** One after the other; each meets the edits of those before. */
  function MembershipAdds(s: Contents, attr: Str, members: seq<DN>, group: DN): Effect {
    if members == [] then Effect(s, Ok([]))
    else
      var front := MembershipAdds(s, attr, members[..|members| - 1], group);
      match front.result
      case Fail(_) => front
      case Ok(cs) => Then(cs, MembershipAdd(front.store, attr, members[|members| - 1], group), OperationsError)
  }

  function MembershipRemoves(s: Contents, base: DN, attr: Str, members: seq<DN>, group: DN): Effect {
    if members == [] then Effect(s, Ok([]))
    else
      var front := MembershipRemoves(s, base, attr, members[..|members| - 1], group);
      match front.result
      case Fail(_) => front
      case Ok(cs) => Then(cs, MembershipRemove(front.store, base, attr, members[|members| - 1], group), OperationsError)
  }

  /** The same over the raw names an entry holds. */
  function RawRemoves(s: Contents, base: DN, attr: Str, raws: seq<Str>, group: DN): Effect {
    if raws == [] then Effect(s, Ok([]))
    else
      var front := RawRemoves(s, base, attr, raws[..|raws| - 1], group);
      match front.result
      case Fail(_) => front
      case Ok(cs) =>
        match ParseUnder(base, raws[|raws| - 1], false)
        case None => Effect(front.store, Fail(InvalidDNSyntax))
        case Some(member) => Then(cs, MembershipRemove(front.store, base, attr, member, group), OperationsError)
  }

  /******* Add *******/

  /** The attributes of the new entry so far, and the members named so far. */
  datatype Draft = Draft(attributes: Attributes, members: seq<DN>)

  function Members(s: Contents, base: DN, vals: seq<Str>): Result<seq<DN>> {
    if vals == [] then Ok([])
    else
      match Members(s, base, vals[..|vals| - 1])
      case Fail(f) => Fail(f)
      case Ok(front) =>
        match ParseUnder(base, vals[|vals| - 1], false)
        case None => Fail(InvalidDNSyntax)
        case Some(dn) => if Lookup(s, dn).None? then Fail(NoSuchObject) else Ok(front + [dn])
  }

  function AddAttribute(s: Contents, base: DN, d: Draft, a: Attribute): Result<Draft> {
    var key := AttributeKey(a.typ);
    if !CanUpdate(key) then Fail(ObjectClassViolation)
    else if key == MEMBER then
      match Members(s, base, a.vals)
      case Fail(f) => Fail(f)
      case Ok(dns) => Ok(Draft(d.attributes[key := Strings(d.members + dns)], d.members + dns))
    else
      var had := if key in d.attributes then d.attributes[key] else [];
      Ok(d.(attributes := d.attributes[key := had + a.vals]))
  }

  function Drafted(s: Contents, base: DN, attributes: seq<Attribute>): Result<Draft> {
    if attributes == [] then Ok(Draft(map[], []))
    else
      match Drafted(s, base, attributes[..|attributes| - 1])
      case Fail(f) => Fail(f)
      case Ok(d) => AddAttribute(s, base, d, attributes[|attributes| - 1])
  }

  function WithSystem(attributes: Attributes, meta: Meta): Attributes {
    var classed := if OBJECTCLASS in attributes && attributes[OBJECTCLASS] != [] then attributes
                   else attributes[OBJECTCLASS := [TOP]];
    classed[CREATORSNAME := [meta.user]][CREATETIMESTAMP := [meta.timestamp]][ENTRYUUID := [meta.uuid]]
  }

  function AddChanges(s: Contents, base: DN, allowed: bool, r: AddRequest, meta: Meta): Effect {
    match ParseUnder(base, r.entry, false)
    case None => Effect(s, Fail(InvalidDNSyntax))
    case Some(dn) =>
      if !allowed then Effect(s, Fail(InsufficientAccessRights))
      else if Lookup(s, dn).Some? then Effect(s, Fail(EntryAlreadyExists))
      else if dn == [] || Lookup(s, dn[1..]).None? then Effect(s, Fail(NoSuchObject))
      else
        match Drafted(s, base, r.attributes)
        case Fail(f) => Effect(s, Fail(f))
        case Ok(d) =>
          Then([Put(NewEntry(dn, WithSystem(d.attributes, meta)))], MembershipAdds(s, MEMBEROF, d.members, dn),
              OperationsError)
  }

  /******* Del *******/

  /** The transaction of a Del that passes the leaf check. */
  function Removal(base: DN, s: Contents, dn: DN): Effect
    requires Key(dn) in s
  {
    var entry := s[Key(dn)];
    var groups := RawRemoves(s, base, MEMBER, entry.Get(MEMBEROF), dn);
    match groups.result
    case Fail(_) => groups
    case Ok(cs) =>
      var members := RawRemoves(groups.store, base, MEMBEROF, entry.Get(MEMBER), dn);
      match members.result
      case Fail(_) => members
      case Ok(ds) => Effect(members.store, Ok([Drop(dn)] + cs + ds))
  }

  function DelChanges(s: Contents, base: DN, allowed: bool, raw: Str): Effect {
    match ParseUnder(base, raw, false)
    case None => Effect(s, Fail(InvalidDNSyntax))
    case Some(dn) =>
      if !allowed then Effect(s, Fail(InsufficientAccessRights))
      else if forall k | k in s :: !Scanned(Reverse(dn), k) then Effect(s, Fail(NoSuchObject))
      else if exists k :: k in s && Scanned(Reverse(dn), k) && s[k].dn != dn then Effect(s, Fail(NotAllowedOnNonLeaf))
      else Removal(base, s, dn)
  }

  /******* Modify *******/

  /** The values of the touched attributes so far, and the two journals of the member attribute. */
  datatype Edit = Edit(attributes: Attributes, added: seq<DN>, removed: seq<DN>)

  /** Values to which names are appended unless they are there. */
  function Appended(vals: seq<Str>, more: seq<Str>): (r: seq<Str>)
    ensures vals <= r
    ensures forall v :: v in r <==> v in vals || v in more
  {
    if more == [] then vals
    else
      var front, v := Appended(vals, more[..|more| - 1]), more[|more| - 1];
      assert more == more[..|more| - 1] + [v];
      if v in front then front else front + [v]
  }

  function Filtered(vals: seq<Str>, keep: seq<Str>, kept: bool): (r: seq<Str>)
    ensures forall v :: v in r <==> v in vals && (v in keep <==> kept)
  {
    if vals == [] then []
    else
      var front, v := Filtered(vals[..|vals| - 1], keep, kept), vals[|vals| - 1];
      assert vals == vals[..|vals| - 1] + [v];
      if v in keep <==> kept then front + [v] else front
  }

  /** One change of one attribute, as section 4.6 of RFC 4511 has it. */
  function Modified(vals: seq<Str>, operation: Operation, values: seq<Str>): seq<Str> {
    match operation
    case Add => Appended(vals, values)
    case Delete => if values == [] then [] else Filtered(vals, values, false)
    case Replace => values
  }

  /** The values of the member attribute a change adds to the journal of gains. */
  function Gains(vals: seq<Str>, operation: Operation, values: seq<Str>): seq<Str> {
    match operation
    case Add => Appended(vals, values)[|vals|..]
    case Delete => []
    case Replace => Filtered(values, vals, false)
  }

  function Losses(vals: seq<Str>, operation: Operation, values: seq<Str>): seq<Str> {
    match operation
    case Add => []
    case Delete => if values == [] then vals else Filtered(vals, values, true)
    case Replace => Filtered(vals, values, false)
  }

  /** Raw names parsed below the base; None when one is not such a name. */
  function ParseEach(base: DN, raws: seq<Str>): Option<seq<DN>> {
    if raws == [] then Some([])
    else
      match ParseEach(base, raws[..|raws| - 1])
      case None => None
      case Some(front) =>
        match ParseUnder(base, raws[|raws| - 1], false)
        case None => None
        case Some(dn) => Some(front + [dn])
  }

  function ModifyOne(base: DN, entry: Entry, allowed: set<Str>, e: Edit, m: Modification): Result<Edit> {
    var attr := AttributeKey(m.typ);
    if !CanUpdate(attr) then Fail(ObjectClassViolation)
    else if entry.dn != [] && attr == AttributeKey(entry.dn[0].typ) then Fail(ObjectClassViolation)
    else if attr !in allowed then Fail(InsufficientAccessRights)
    else if m.operation.Add? && m.vals == [] && attr !in e.attributes && attr !in entry.attributes then Ok(e)
    else
      var vals := if attr in e.attributes then e.attributes[attr] else entry.Get(attr);
      if attr != MEMBER then Ok(e.(attributes := e.attributes[attr := Modified(vals, m.operation, m.vals)]))
      else
        match ParseEach(base, m.vals)
        case None => Fail(InvalidDNSyntax)
        case Some(dns) =>
          var values := Strings(dns);
          match (ParseEach(base, Gains(vals, m.operation, values)), ParseEach(base, Losses(vals, m.operation, values)))
          case (Some(gained), Some(lost)) =>
            Ok(Edit(e.attributes[attr := Modified(vals, m.operation, values)], e.added + gained, e.removed + lost))
          case _ => Fail(InvalidDNSyntax)
  }

  function Modifies(base: DN, entry: Entry, allowed: set<Str>, changes: seq<Modification>): Result<Edit> {
    if changes == [] then Ok(Edit(map[], [], []))
    else
      match Modifies(base, entry, allowed, changes[..|changes| - 1])
      case Fail(f) => Fail(f)
      case Ok(e) => ModifyOne(base, entry, allowed, e, changes[|changes| - 1])
  }

  /** The transaction of a Modify whose changes are accepted. */
  function EditChanges(s: Contents, base: DN, dn: DN, e: Edit, meta: Meta): Effect {
    var adds := MembershipAdds(s, MEMBEROF, e.added, dn);
    match adds.result
    case Fail(_) => adds
    case Ok(cs) =>
      var removes := MembershipRemoves(adds.store, base, MEMBEROF, e.removed, dn);
      match removes.result
      case Fail(_) => removes
      case Ok(ds) => Effect(removes.store, Ok([Put(Stamped(dn, e.attributes, meta))] + cs + ds))
  }

  function ModifyChanges(s: Contents, base: DN, allowed: bool, allowedAttrs: set<Str>, r: ModifyRequest,
      meta: Meta): Effect {
    match ParseUnder(base, r.entry, false)
    case None => Effect(s, Fail(InvalidDNSyntax))
    case Some(dn) =>
      if !allowed then Effect(s, Fail(InsufficientAccessRights))
      else
        match Lookup(s, dn)
        case None => Effect(s, Fail(NoSuchObject))
        case Some(entry) =>
          match Modifies(base, entry, allowedAttrs, r.changes)
          case Fail(f) => Effect(s, Fail(f))
          case Ok(e) =>
            if exists i :: 0 <= i < |e.added| && Lookup(s, e.added[i]).None? then Effect(s, Fail(NoSuchObject))
            else if OBJECTCLASS in e.attributes && e.attributes[OBJECTCLASS] == []
                then Effect(s, Fail(InsufficientAccessRights))
            else EditChanges(s, base, dn, e, meta)
  }

  /** Only the touched attributes are kept, with the name of the modifier and the time. */
  function Stamped(dn: DN, attributes: Attributes, meta: Meta): Entry {
    NewEntry(dn, attributes[MODIFIERSNAME := [meta.user]][MODIFYTIMESTAMP := [meta.timestamp]])
  }

  /******* Initialize *******/

  function InitialEntry(base: DN, classes: seq<Str>, structural: Str, meta: Meta): Entry {
    NewEntry(base, map[OBJECTCLASS := classes, Ascii("structuralobjectclass") := [structural],
                       CREATORSNAME := [DNString(base)], CREATETIMESTAMP := [meta.timestamp], ENTRYUUID := [meta.uuid]])
  }

  function InitializeChanges(s: Contents, base: DN, classes: seq<Str>, structural: Str, meta: Meta): seq<Change> {
    if Lookup(s, base).Some? then [] else [Put(InitialEntry(base, classes, structural, meta))]
  }

  /** What is stored after a request: the logged changes on top of the edits in place. */
  function After(e: Effect): Contents {
    match e.result
    case Ok(cs) => ApplyChanges(e.store, cs)
    case Fail(_) => e.store
  }
}
