/** The member list screen: who may invite and remove, how an invited member is made, and how a
    member is removed. The random draws and the confirmation dialog are parameters. */
module MemberManager {
  import opened Collections
  import opened Types
  import opened MockData

  predicate IsOwner(u: UserProfile) {
    u.role == Owner
  }

  /** The remove button is offered on a member's card only to an owner, and never on their own card. */
  predicate CanRemove(current: UserProfile, member: UserProfile): (r: bool)
    ensures r <==> IsOwner(current) && member.id != current.id
    ensures r ==> member != current
  {
    IsOwner(current) && member.id != current.id
  }

  /** `Math.floor(Math.random() * animalKeys.length)` for a draw in [0, 1): an index into the
      illustration keys. */
  function RandomKeyIndex(draw: real): (i: nat)
    requires 0.0 <= draw < 1.0
    ensures i < |IllustrationKeys|
    ensures i as real <= draw * |IllustrationKeys| as real < i as real + 1.0
  {
    assert |IllustrationKeys| as real == 6.0;
    (draw * 6.0).Floor
  }

  /** The member an invitation creates: the entered name and e-mail, the id `user-` followed by a
      random suffix, a randomly drawn illustration and the plain member role. */
  function NewMember(name: string, email: string, idSuffix: string, draw: real): (m: UserProfile)
    requires 0.0 <= draw < 1.0
    ensures m.id == "user-" + idSuffix && m.email == email && m.fullName == name
    ensures m.role == Member && m.baseLocations == []
    ensures m.avatarType == Illustration && m.avatarIllustration.Some?
    ensures m.avatarIllustration.value in IllustrationKeys
    ensures m.avatarUrl == IllustrationUrl(m.avatarIllustration.value)
  {
    var key := IllustrationKeys[RandomKeyIndex(draw)];
    UserProfile("user-" + idSuffix, email, name, IllustrationUrl(key), Illustration, Some(key), Member, [])
  }

  /** `handleAddMember`: the new member is appended; everyone already in the list stays, in order. */
  function AddMember(members: seq<UserProfile>, name: string, email: string, idSuffix: string, draw: real)
    : (r: seq<UserProfile>)
    requires 0.0 <= draw < 1.0
    ensures |r| == |members| + 1
    ensures r[..|members|] == members
    ensures r[|members|] == NewMember(name, email, idSuffix, draw)
  {
    members + [NewMember(name, email, idSuffix, draw)]
  }

  /** The invite form is reachable only through the owner's invite button. */
  function Invite(members: seq<UserProfile>, current: UserProfile, name: string, email: string,
                  idSuffix: string, draw: real): (r: Option<seq<UserProfile>>)
    requires 0.0 <= draw < 1.0
    ensures r.Some? <==> IsOwner(current)
    ensures r.Some? ==> |r.value| == |members| + 1 && r.value[..|members|] == members
    ensures r.Some? ==> r.value[|members|].role == Member
  {
    if IsOwner(current) then Some(AddMember(members, name, email, idSuffix, draw)) else None
  }

  function NotId(id: string): UserProfile -> bool {
    (m: UserProfile) => m.id != id
  }

  /** `removeMember`: when the dialog is confirmed, every member with the id leaves and the rest
      stay in order; otherwise the list is unchanged. */
  function RemoveMember(members: seq<UserProfile>, id: string, confirmed: bool): (r: seq<UserProfile>)
    ensures !confirmed ==> r == members
    ensures confirmed ==> forall i :: 0 <= i < |r| ==> r[i].id != id
    ensures confirmed ==> forall m :: multiset(r)[m] == if m.id == id then 0 else multiset(members)[m]
  {
    FilterCount(members, NotId(id));
    if confirmed then Filter(members, NotId(id)) else members
  }

  /** Pressing remove on `target`'s card; nothing happens when the card shows no remove button. */
  function RemoveAction(members: seq<UserProfile>, current: UserProfile, target: UserProfile, confirmed: bool)
    : (r: Option<seq<UserProfile>>)
    ensures r.Some? <==> IsOwner(current) && target.id != current.id
    ensures r.Some? && !confirmed ==> r.value == members
    ensures r.Some? && confirmed ==> forall i :: 0 <= i < |r.value| ==> r.value[i].id != target.id
  {
    if CanRemove(current, target) then Some(RemoveMember(members, target.id, confirmed)) else None
  }

  /** A removal never takes away the user who performs it: every member carrying their id stays,
      as often as before. */
  lemma RemovalKeepsCurrentUser(members: seq<UserProfile>, current: UserProfile, target: UserProfile,
                                confirmed: bool)
    requires RemoveAction(members, current, target, confirmed).Some?
    ensures var r := RemoveAction(members, current, target, confirmed).value;
      forall m: UserProfile :: m.id == current.id ==> multiset(r)[m] == multiset(members)[m]
  {
  }

  /** Removal keeps order: when the first member does not carry the removed id, it is still first. */
  lemma RemovalKeepsFirst(members: seq<UserProfile>, id: string, confirmed: bool)
    requires |members| > 0 && members[0].id != id
    ensures var r := RemoveMember(members, id, confirmed); |r| > 0 && r[0] == members[0]
  {
    if confirmed {
      assert members == [members[0]] + members[1..];
      FilterConcat([members[0]], members[1..], NotId(id));
      FilterSingleton(members[0], NotId(id));
    }
  }

  /** A confirmed removal keeps the order of the remaining members: on `a + b` it keeps the
      members of `a`, then those of `b`. */
  lemma RemoveMemberConcat(a: seq<UserProfile>, b: seq<UserProfile>, id: string)
    ensures RemoveMember(a + b, id, true) == RemoveMember(a, id, true) + RemoveMember(b, id, true)
  {
    FilterConcat(a, b, NotId(id));
  }

  /** Removing one id twice is removing it once. */
  lemma RemoveMemberIdempotent(members: seq<UserProfile>, id: string)
    ensures RemoveMember(RemoveMember(members, id, true), id, true) == RemoveMember(members, id, true)
  {
    var r := RemoveMember(members, id, true);
    FilterKeepsAll(r, NotId(id));
  }
}
