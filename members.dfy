/** The roster page (scripts/members.js): the add / edit form, deletion and
    the list filter. */
module Members {
  import opened Common
  import opened Entities
  import opened Ledger
  // scripts/members.js:292-294 declares its own `generateId(prefix)`, word
  // for word the one of scripts/books.js:21-23, so the roster uses
  // `Books.GenerateId` with the prefix "M".
  import Books

  /** The fields of the member form. */
  datatype MemberForm = MemberForm(
    name: string,
    email: string,
    phone: string,
    memberType: string,
    address: string)

  /** The form fields of a stored member (what `editMember` fills the form
      with). */
  function FormOf(m: Member): MemberForm
  {
    MemberForm(m.name, m.email, m.phone, m.memberType, m.address)
  }

  /** `{ ...member, ...memberData }`: the form's fields and status Active over
      a stored member, who keeps the id and join date. */
  function ApplyForm(m: Member, f: MemberForm): (r: Member)
    ensures r.id == m.id && r.joinDate == m.joinDate && r.status == Active
    ensures FormOf(r) == f
  {
    m.(name := f.name, email := f.email, phone := f.phone, memberType := f.memberType,
       address := f.address, status := Active)
  }

  /** `handleMemberSubmit`. With an edit id, the first member with that id
      takes the form's fields and status Active (an Inactive member is
      reactivated), and an unknown id changes nothing. Without one, a member
      with a random "M" id, the form's fields, status Active and today's
      date is appended; the id is not checked against the roster. */
  function HandleMemberSubmit(members: seq<Member>, editId: string, form: MemberForm, rand: nat, now: nat): (r: seq<Member>)
    requires rand < 100000
    ensures editId != "" ==>
      && |r| == |members|
      && (forall j :: 0 <= j < |members| && j != MemberIndex(members, editId) ==> r[j] == members[j])
      && var i := MemberIndex(members, editId);
         i >= 0 ==> && r[i].id == members[i].id && r[i].joinDate == members[i].joinDate
                    && r[i].status == Active && FormOf(r[i]) == form
    ensures editId == "" ==>
      && |r| == |members| + 1 && r[..|members|] == members
      && var m := r[|members|];
         m.id == Books.GenerateId("M", rand) && m.status == Active && m.joinDate == Today(now) && FormOf(m) == form
  {
    if editId != "" then
      var i := MemberIndex(members, editId);
      if i < 0 then members else members[i := ApplyForm(members[i], form)]
    else
      members + [ApplyForm(Member(Books.GenerateId("M", rand), "", "", "", "", Active, "", Today(now)), form)]
  }

  /** Submitting the same edit twice is submitting it once. */
  lemma EditIdempotent(members: seq<Member>, editId: string, form: MemberForm, rand: nat, now: nat, rand2: nat, now2: nat)
    requires editId != "" && rand < 100000 && rand2 < 100000
    ensures var once := HandleMemberSubmit(members, editId, form, rand, now);
      HandleMemberSubmit(once, editId, form, rand2, now2) == once
  {
    var once := HandleMemberSubmit(members, editId, form, rand, now);
    var i := MemberIndex(members, editId);
    if i >= 0 {
      assert MemberIndex(once, editId) == i by {
        assert forall j :: 0 <= j < i ==> once[j] == members[j];
      }
      assert ApplyForm(once[i], form) == once[i];
    } else {
      assert once == members;
    }
  }

  /** An added member is found by the new id unless that id was already on
      the roster, in which case the look-up keeps finding the older member. */
  lemma AddedMemberFound(members: seq<Member>, form: MemberForm, rand: nat, now: nat)
    requires rand < 100000
    ensures var r := HandleMemberSubmit(members, "", form, rand, now);
      var id := Books.GenerateId("M", rand);
      MemberIndex(r, id) == if MemberIndex(members, id) >= 0 then MemberIndex(members, id) else |members|
  {
    var r := HandleMemberSubmit(members, "", form, rand, now);
    var id := Books.GenerateId("M", rand);
    assert forall j :: 0 <= j < |members| ==> r[j] == members[j];
  }

  /** `deleteMember` (after the user confirmed): every member with the id
      goes, the rest keep their order. Loans to the member are kept. */
  function DeleteMember(members: seq<Member>, id: string): (r: seq<Member>)
    ensures forall m :: m in r <==> m in members && m.id != id
    ensures MemberIndex(r, id) < 0
  {
    Filter(members, (m: Member) => m.id != id)
  }

  lemma DeleteMemberIdempotent(members: seq<Member>, id: string)
    ensures DeleteMember(DeleteMember(members, id), id) == DeleteMember(members, id)
  {
    FilterIdempotent(members, (m: Member) => m.id != id);
  }

  /** The members who remain keep their roster order. */
  lemma DeleteMemberKeepsOrder(front: seq<Member>, back: seq<Member>, id: string)
    ensures DeleteMember(front + back, id) == DeleteMember(front, id) + DeleteMember(back, id)
  {
    FilterAppend(front, back, (m: Member) => m.id != id);
  }

  /** Deleting one member leaves every other member's look-up succeeding. */
  lemma DeleteKeepsOthers(members: seq<Member>, id: string, other: string)
    requires other != id && MemberIndex(members, other) >= 0
    ensures var r := DeleteMember(members, id);
      MemberIndex(r, other) >= 0 && r[MemberIndex(r, other)].id == other
  {
    var r := DeleteMember(members, id);
    var m := members[MemberIndex(members, other)];
    assert m in r;
    var k :| 0 <= k < |r| && r[k] == m;
  }

  /** The roster filter: the search term (ignoring case) in name, email or
      id, the exact status and the exact type; an empty filter accepts
      everything. */
  function MemberMatches(m: Member, term: string, status: string, memberType: string): bool
  {
    && SearchMatches(term, [m.name, m.email, m.id])
    && (status == "" || AccountStatusName(m.status) == status)
    && (memberType == "" || m.memberType == memberType)
  }

  /** `applyFilters`: exactly the members the filter accepts. */
  function FilterMembers(members: seq<Member>, term: string, status: string, memberType: string): (r: seq<Member>)
    ensures forall m :: m in r <==> m in members && MemberMatches(m, term, status, memberType)
  {
    Filter(members, m => MemberMatches(m, term, status, memberType))
  }

  /** A member is always found by their own full id. */
  lemma SearchById(m: Member)
    ensures MemberMatches(m, m.id, "", "")
  {
    var q := Lower(m.id);
    if q != [] {
      assert OccursAt(Lower([m.name, m.email, m.id][2]), q, 0);
    }
  }
}
