/**
 * The `members` table and the validating write operations of the member
 * model: adding, updating and deleting a member, and checking whether a
 * reference code may still be redeemed.
 *
 * A row's `discord_id` is nullable; JavaScript treats both NULL and the
 * empty string as "not set", so a row counts as bound only when its
 * `discord_id` is a non-empty string.
 */
module Members {
  import opened Wrappers

  /** One row of the `members` table; `createdAt` stands for the insert timestamp. */
  datatype Member = Member(
    id: nat,
    batchCode: string,
    firstName: string,
    lastName: string,
    referenceCode: string,
    internalRole: string,
    discordId: Option<string>,
    createdAt: nat)

  /** The table's rows together with the next value of its `SERIAL` id sequence. */
  datatype Store = Store(rows: seq<Member>, nextId: nat)

  /** The columns an administrator supplies. */
  datatype Field = BatchCode | FirstName | LastName | ReferenceCode | InternalRole | DiscordId

  /** The request body handed to `addMember` or `updateMember`; any property may be absent. */
  datatype MemberInput = MemberInput(
    batchCode: Option<string>,
    firstName: Option<string>,
    lastName: Option<string>,
    referenceCode: Option<string>,
    internalRole: Option<string>,
    discordId: Option<string>)
  {
    function Get(f: Field): Option<string>
    {
      match f
      case BatchCode => batchCode
      case FirstName => firstName
      case LastName => lastName
      case ReferenceCode => referenceCode
      case InternalRole => internalRole
      case DiscordId => discordId
    }
  }

  /** The errors the model throws, each listing the offending fields where it names any. */
  datatype MemberError =
    | MissingFields(missing: seq<Field>)
    | FieldsTooLong(tooLong: seq<Field>)
    | DuplicateReferenceCode
    | MemberNotFound(id: nat)

  /** The three answers of `checkReferenceCode`. */
  datatype CodeStatus = UnknownCode | CodeUsed | CodeUnused

  /** Fields `addMember` demands, in the order its error message lists them. */
  const AddRequired: seq<Field> := [BatchCode, FirstName, LastName, ReferenceCode, InternalRole]

  /** Length caps `addMember` enforces; the reference code has none. */
  const AddLimits: seq<(Field, nat)> :=
    [(BatchCode, 32), (FirstName, 32), (LastName, 32), (InternalRole, 64), (DiscordId, 64)]

  /** Fields `updateMember` demands. */
  const UpdateRequired: seq<Field> := [BatchCode, FirstName, LastName, InternalRole]

  /** Length caps `updateMember` enforces. */
  const UpdateLimits: seq<(Field, nat)> :=
    [(BatchCode, 32), (FirstName, 32), (LastName, 32), (InternalRole, 64)]

  /** JavaScript truthiness of an optional string: present and non-empty. */
  predicate Truthy(v: Option<string>)
  {
    v.Some? && v.value != ""
  }

  /** A row is bound once a truthy `discord_id` is attached to it. */
  predicate IsBound(m: Member)
  {
    Truthy(m.discordId)
  }

  /** The field is present and longer than `max`. */
  predicate Exceeds(input: MemberInput, f: Field, max: nat)
  {
    Truthy(input.Get(f)) && |input.Get(f).value| > max
  }

  /** Every listed field has a truthy value. */
  predicate AllPresent(input: MemberInput, fields: seq<Field>)
  {
    forall f :: f in fields ==> Truthy(input.Get(f))
  }

  /** No listed field is longer than its cap. */
  predicate WithinLimits(input: MemberInput, limits: seq<(Field, nat)>)
  {
    forall k :: 0 <= k < |limits| ==> !Exceeds(input, limits[k].0, limits[k].1)
  }

  predicate CodesUnique(rows: seq<Member>)
  {
    forall i, j :: 0 <= i < j < |rows| ==> rows[i].referenceCode != rows[j].referenceCode
  }

  predicate IdsUnique(rows: seq<Member>)
  {
    forall i, j :: 0 <= i < j < |rows| ==> rows[i].id != rows[j].id
  }

  /**
   * The table's constraints: `reference_code` is UNIQUE, `id` is the
   * primary key, and the id sequence is ahead of every id in use.
   */
  predicate Valid(s: Store)
  {
    && CodesUnique(s.rows)
    && IdsUnique(s.rows)
    && forall i :: 0 <= i < |s.rows| ==> s.rows[i].id < s.nextId
  }

  predicate HasCode(rows: seq<Member>, code: string)
  {
    exists i :: 0 <= i < |rows| && rows[i].referenceCode == code
  }

  predicate HasId(rows: seq<Member>, id: nat)
  {
    exists i :: 0 <= i < |rows| && rows[i].id == id
  }

  /** The required fields that are absent or empty. */
  function MissingAmong(input: MemberInput, fields: seq<Field>): (r: seq<Field>)
    ensures forall f :: f in r <==> f in fields && !Truthy(input.Get(f))
    ensures |r| == 0 <==> AllPresent(input, fields)
    ensures |r| <= |fields|
  {
    if |fields| == 0 then []
    else
      var rest := MissingAmong(input, fields[1..]);
      if Truthy(input.Get(fields[0])) then rest else [fields[0]] + rest
  }

  /** The capped fields that are present and over their cap. */
  function TooLongAmong(input: MemberInput, limits: seq<(Field, nat)>): (r: seq<Field>)
    ensures forall f :: f in r <==> exists k :: 0 <= k < |limits| && limits[k].0 == f && Exceeds(input, f, limits[k].1)
    ensures |r| == 0 <==> WithinLimits(input, limits)
    ensures |r| <= |limits|
  {
    if |limits| == 0 then []
    else
      var rest := TooLongAmong(input, limits[1..]);
      assert forall f :: f in rest <==> exists k :: 1 <= k < |limits| && limits[k].0 == f && Exceeds(input, f, limits[k].1) by {
        forall f ensures f in rest ==> exists k :: 1 <= k < |limits| && limits[k].0 == f && Exceeds(input, f, limits[k].1) {
          if f in rest {
            var k' :| 0 <= k' < |limits[1..]| && limits[1..][k'].0 == f && Exceeds(input, f, limits[1..][k'].1);
            assert limits[k' + 1] == limits[1..][k'];
          }
        }
        forall f ensures (exists k :: 1 <= k < |limits| && limits[k].0 == f && Exceeds(input, f, limits[k].1)) ==> f in rest {
          if exists k :: 1 <= k < |limits| && limits[k].0 == f && Exceeds(input, f, limits[k].1) {
            var k :| 1 <= k < |limits| && limits[k].0 == f && Exceeds(input, f, limits[k].1);
            assert limits[1..][k - 1] == limits[k];
          }
        }
      }
      if Exceeds(input, limits[0].0, limits[0].1) then [limits[0].0] + rest else rest
  }

  /** The index of the first row carrying `code`, as `WHERE reference_code = $1` then `rows[0]`. */
  function FindByCode(rows: seq<Member>, code: string): (r: Option<nat>)
    ensures r.None? <==> !HasCode(rows, code)
    ensures r.Some? ==> r.value < |rows| && rows[r.value].referenceCode == code
    ensures r.Some? ==> forall j :: 0 <= j < r.value ==> rows[j].referenceCode != code
  {
    if |rows| == 0 then None
    else if rows[0].referenceCode == code then Some(0)
    else
      match FindByCode(rows[1..], code)
      case None =>
        assert forall i :: 1 <= i < |rows| ==> rows[i] == rows[1..][i - 1];
        None
      case Some(k) => Some(k + 1)
  }

  /** With unique codes, the row `FindByCode` picks is the only one with that code. */
  lemma FindByCodeUnique(rows: seq<Member>, code: string, i: nat)
    requires CodesUnique(rows)
    requires i < |rows| && rows[i].referenceCode == code
    ensures FindByCode(rows, code) == Some(i)
  {
  }

  /**
   * `addMember`: the missing-field check, then the length check, then the
   * insert, which the UNIQUE constraint on `reference_code` rejects as a
   * duplicate. On success the new row and the grown store are returned.
   */
  function AddMember(s: Store, input: MemberInput, now: nat): (r: Result<(Store, Member), MemberError>)
    requires Valid(s)
    ensures r.Failure? && r.error.MissingFields? <==> !AllPresent(input, AddRequired)
    ensures r.Failure? && r.error.MissingFields? ==>
              forall f :: f in r.error.missing <==> f in AddRequired && !Truthy(input.Get(f))
    ensures r.Failure? && r.error.FieldsTooLong? <==>
              AllPresent(input, AddRequired) && !WithinLimits(input, AddLimits)
    ensures r.Failure? && r.error.FieldsTooLong? ==>
              forall f :: f in r.error.tooLong <==> exists k :: 0 <= k < |AddLimits| && AddLimits[k].0 == f && Exceeds(input, f, AddLimits[k].1)
    ensures r.Failure? && r.error.DuplicateReferenceCode? <==>
              && AllPresent(input, AddRequired) && WithinLimits(input, AddLimits)
              && Truthy(input.referenceCode) && HasCode(s.rows, input.referenceCode.value)
    ensures r.Failure? ==> !r.error.MemberNotFound?
    ensures r.Success? ==>
              && Truthy(input.batchCode) && Truthy(input.firstName) && Truthy(input.lastName)
              && Truthy(input.referenceCode) && Truthy(input.internalRole)
    ensures r.Success? ==>
              var (s', m) := r.value;
              && s'.rows == s.rows + [m]
              && Valid(s')
              && m.batchCode == input.batchCode.value
              && m.firstName == input.firstName.value
              && m.lastName == input.lastName.value
              && m.referenceCode == input.referenceCode.value
              && m.internalRole == input.internalRole.value
              && m.discordId == input.discordId
              && m.createdAt == now
              && !HasId(s.rows, m.id)
  {
    var missing := MissingAmong(input, AddRequired);
    if |missing| > 0 then Failure(MissingFields(missing))
    else
      var tooLong := TooLongAmong(input, AddLimits);
      if |tooLong| > 0 then Failure(FieldsTooLong(tooLong))
      else
        assert BatchCode in AddRequired && FirstName in AddRequired && LastName in AddRequired;
        assert ReferenceCode in AddRequired && InternalRole in AddRequired;
        var code := input.referenceCode.value;
        if HasCode(s.rows, code) then Failure(DuplicateReferenceCode)
        else
          var m := Member(s.nextId, input.batchCode.value, input.firstName.value, input.lastName.value,
                          code, input.internalRole.value, input.discordId, now);
          Success((Store(s.rows + [m], s.nextId + 1), m))
  }

  /** `checkReferenceCode`: reads the first row with the code and classifies it. */
  function CheckReferenceCode(s: Store, code: string): (r: CodeStatus)
    ensures r == UnknownCode <==> !HasCode(s.rows, code)
    ensures CodesUnique(s.rows) ==>
              (r == CodeUsed <==> exists i :: 0 <= i < |s.rows| && s.rows[i].referenceCode == code && IsBound(s.rows[i]))
    ensures CodesUnique(s.rows) ==>
              (r == CodeUnused <==> exists i :: 0 <= i < |s.rows| && s.rows[i].referenceCode == code && !IsBound(s.rows[i]))
  {
    match FindByCode(s.rows, code)
    case None => UnknownCode
    case Some(k) => if IsBound(s.rows[k]) then CodeUsed else CodeUnused
  }

  /** The row after `UPDATE ... SET batch_code, first_name, last_name, internal_role`. */
  function Revise(m: Member, updates: MemberInput): Member
    requires AllPresent(updates, UpdateRequired)
  {
    assert BatchCode in UpdateRequired && FirstName in UpdateRequired;
    assert LastName in UpdateRequired && InternalRole in UpdateRequired;
    m.(batchCode := updates.batchCode.value,
       firstName := updates.firstName.value,
       lastName := updates.lastName.value,
       internalRole := updates.internalRole.value)
  }

  /** Every row whose id matches, revised; every other row as it was. */
  function ReviseWhereId(rows: seq<Member>, id: nat, updates: MemberInput): seq<Member>
    requires AllPresent(updates, UpdateRequired)
  {
    seq(|rows|, i requires 0 <= i < |rows| => if rows[i].id == id then Revise(rows[i], updates) else rows[i])
  }

  /** The index of the first row with the given id. */
  function FindById(rows: seq<Member>, id: nat): (r: Option<nat>)
    ensures r.None? <==> !HasId(rows, id)
    ensures r.Some? ==> r.value < |rows| && rows[r.value].id == id
  {
    if |rows| == 0 then None
    else if rows[0].id == id then Some(0)
    else
      match FindById(rows[1..], id)
      case None =>
        assert forall i :: 1 <= i < |rows| ==> rows[i] == rows[1..][i - 1];
        None
      case Some(k) => Some(k + 1)
  }

  /**
   * `updateMember`: the missing-field check, the length check, then the
   * four-column update of the row with that id, or not-found.
   */
  function UpdateMember(s: Store, id: nat, updates: MemberInput): (r: Result<(Store, Member), MemberError>)
    ensures r.Failure? && r.error.MissingFields? <==> !AllPresent(updates, UpdateRequired)
    ensures r.Failure? && r.error.MissingFields? ==>
              forall f :: f in r.error.missing <==> f in UpdateRequired && !Truthy(updates.Get(f))
    ensures r.Failure? && r.error.FieldsTooLong? <==>
              AllPresent(updates, UpdateRequired) && !WithinLimits(updates, UpdateLimits)
    ensures r.Failure? && r.error.FieldsTooLong? ==>
              forall f :: f in r.error.tooLong <==> exists k :: 0 <= k < |UpdateLimits| && UpdateLimits[k].0 == f && Exceeds(updates, f, UpdateLimits[k].1)
    ensures r.Failure? && r.error.MemberNotFound? <==>
              AllPresent(updates, UpdateRequired) && WithinLimits(updates, UpdateLimits) && !HasId(s.rows, id)
    ensures r.Failure? && r.error.MemberNotFound? ==> r.error.id == id
    ensures r.Failure? ==> !r.error.DuplicateReferenceCode?
    ensures r.Success? ==>
              Truthy(updates.batchCode) && Truthy(updates.firstName) && Truthy(updates.lastName) && Truthy(updates.internalRole)
    ensures r.Success? ==>
              var (s', m) := r.value;
              && |s'.rows| == |s.rows| && s'.nextId == s.nextId
              && m in s'.rows && m.id == id
              && (forall i :: 0 <= i < |s.rows| ==>
                    && s'.rows[i].id == s.rows[i].id
                    && s'.rows[i].referenceCode == s.rows[i].referenceCode
                    && s'.rows[i].discordId == s.rows[i].discordId
                    && s'.rows[i].createdAt == s.rows[i].createdAt)
              && (forall i :: 0 <= i < |s.rows| && s.rows[i].id != id ==> s'.rows[i] == s.rows[i])
              && (forall i :: 0 <= i < |s.rows| && s.rows[i].id == id ==>
                    && s'.rows[i].batchCode == updates.batchCode.value
                    && s'.rows[i].firstName == updates.firstName.value
                    && s'.rows[i].lastName == updates.lastName.value
                    && s'.rows[i].internalRole == updates.internalRole.value)
    ensures r.Success? && Valid(s) ==> Valid(r.value.0)
  {
    var missing := MissingAmong(updates, UpdateRequired);
    if |missing| > 0 then Failure(MissingFields(missing))
    else
      var tooLong := TooLongAmong(updates, UpdateLimits);
      if |tooLong| > 0 then Failure(FieldsTooLong(tooLong))
      else
        assert BatchCode in UpdateRequired && FirstName in UpdateRequired;
        assert LastName in UpdateRequired && InternalRole in UpdateRequired;
        match FindById(s.rows, id)
        case None => Failure(MemberNotFound(id))
        case Some(k) =>
          var rows' := ReviseWhereId(s.rows, id, updates);
          Success((Store(rows', s.nextId), rows'[k]))
  }

  /** The rows whose id differs from `id`, in order: `DELETE ... WHERE id = $1`. */
  function RemoveId(rows: seq<Member>, id: nat): (r: seq<Member>)
    ensures forall m :: m in r <==> m in rows && m.id != id
    ensures !HasId(rows, id) ==> r == rows
    ensures |r| <= |rows|
  {
    if |rows| == 0 then []
    else
      var rest := RemoveId(rows[1..], id);
      assert !HasId(rows, id) ==> !HasId(rows[1..], id) by {
        if HasId(rows[1..], id) {
          var i :| 0 <= i < |rows[1..]| && rows[1..][i].id == id;
          assert rows[i + 1].id == id;
        }
      }
      assert rows == [rows[0]] + rows[1..];
      if rows[0].id == id then rest else [rows[0]] + rest
  }

  /** With unique ids, deleting the id removes exactly the one row at index `k`. */
  lemma {:induction false} RemoveIdIsSlice(rows: seq<Member>, id: nat, k: nat)
    requires IdsUnique(rows)
    requires k < |rows| && rows[k].id == id
    ensures RemoveId(rows, id) == rows[..k] + rows[k + 1..]
  {
    var tail := rows[1..];
    if k == 0 {
      RemoveIdAtHead(rows, id);
    } else {
      assert rows[0].id != id;
      assert RemoveId(rows, id) == [rows[0]] + RemoveId(tail, id);
      TailIdsUnique(rows);
      assert tail[k - 1] == rows[k];
      RemoveIdIsSlice(tail, id, k - 1);
      assert tail[..k - 1] + tail[k..] == rows[1..k] + rows[k + 1..];
      assert rows[..k] == [rows[0]] + rows[1..k];
    }
  }

  /** With unique ids, deleting the first row's id removes just that row. */
  lemma RemoveIdAtHead(rows: seq<Member>, id: nat)
    requires IdsUnique(rows)
    requires |rows| > 0 && rows[0].id == id
    ensures RemoveId(rows, id) == rows[1..]
  {
  }

  lemma TailIdsUnique(rows: seq<Member>)
    requires IdsUnique(rows) && |rows| > 0
    ensures IdsUnique(rows[1..])
  {
  }

  /**
   * `deleteMember`: removes the row with the id and returns it, or
   * returns nothing and leaves the store as it was.
   */
  function DeleteMember(s: Store, id: nat): (r: (Option<Member>, Store))
    ensures r.0.None? <==> !HasId(s.rows, id)
    ensures r.0.None? ==> r.1 == s
    ensures r.0.Some? ==> r.0.value in s.rows && r.0.value.id == id
    ensures r.1.nextId == s.nextId
    ensures forall m :: m in r.1.rows <==> m in s.rows && m.id != id
    ensures r.0.Some? && IdsUnique(s.rows) ==>
              exists k :: 0 <= k < |s.rows| && s.rows[k] == r.0.value && r.1.rows == s.rows[..k] + s.rows[k + 1..]
    ensures Valid(s) ==> Valid(r.1)
  {
    var rows' := RemoveId(s.rows, id);
    match FindById(s.rows, id)
    case None => (None, s)
    case Some(k) =>
      assert IdsUnique(s.rows) ==> rows' == s.rows[..k] + s.rows[k + 1..] by {
        if IdsUnique(s.rows) {
          RemoveIdIsSlice(s.rows, id, k);
        }
      }
      DeleteKeepsValid(s, id);
      (Some(s.rows[k]), Store(rows', s.nextId))
  }

  /** Deleting rows keeps the table's constraints. */
  lemma DeleteKeepsValid(s: Store, id: nat)
    ensures Valid(s) ==> Valid(Store(RemoveId(s.rows, id), s.nextId))
  {
    if Valid(s) && HasId(s.rows, id) {
      var k := FindById(s.rows, id).value;
      RemoveIdIsSlice(s.rows, id, k);
      DropKeepsValid(s, k);
    }
  }

  /** Dropping one row keeps the table's constraints. */
  lemma DropKeepsValid(s: Store, k: nat)
    requires Valid(s) && k < |s.rows|
    ensures Valid(Store(s.rows[..k] + s.rows[k + 1..], s.nextId))
  {
  }

  /** Deleting the member just added gives back the rows from before the insert. */
  lemma AddThenDeleteRestores(s: Store, input: MemberInput, now: nat)
    requires Valid(s)
    requires AddMember(s, input, now).Success?
    ensures var (s', m) := AddMember(s, input, now).value;
            DeleteMember(s', m.id) == (Some(m), Store(s.rows, s'.nextId))
  {
    var (s', m) := AddMember(s, input, now).value;
    var k := |s.rows|;
    assert s'.rows[k] == m;
    RemoveIdIsSlice(s'.rows, m.id, k);
    assert s'.rows[..k] + s'.rows[k + 1..] == s.rows;
    assert FindById(s'.rows, m.id) == Some(k) by {
      var j := FindById(s'.rows, m.id).value;
      assert s'.rows[j].id == s'.rows[k].id;
    }
  }

  /**
   * A freshly added code is known to `checkReferenceCode`, and counts as
   * used exactly when the administrator supplied a Discord id with it.
   */
  lemma AddedCodeIsKnown(s: Store, input: MemberInput, now: nat)
    requires Valid(s)
    requires AddMember(s, input, now).Success?
    ensures var (s', m) := AddMember(s, input, now).value;
            CheckReferenceCode(s', m.referenceCode) == if Truthy(input.discordId) then CodeUsed else CodeUnused
  {
    var (s', m) := AddMember(s, input, now).value;
    FindByCodeUnique(s'.rows, m.referenceCode, |s.rows|);
  }

  /**
   * Editing a member never changes whether any reference code is unknown,
   * used or unused.
   */
  lemma UpdateKeepsCodeStatus(s: Store, id: nat, updates: MemberInput, code: string)
    requires UpdateMember(s, id, updates).Success?
    ensures CheckReferenceCode(UpdateMember(s, id, updates).value.0, code) == CheckReferenceCode(s, code)
  {
  }
}
