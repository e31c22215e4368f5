/**
 * The Member and Team entities as objects: a member points to its team, a
 * team lists its members, and Team.addMember keeps the two sides in step.
 * Identifiers are assigned by the persistence layer and are not part of
 * these objects.
 */
module Entities {
  import opened Schema

  class Member {
    var username: string
    var age: int
    var team: Team?
    var status: MemberStatus

    /** Member.of: a new member keeps the given name and age, is ACTIVE and has no team. */
    constructor Of(username: string, age: int)
      ensures this.username == username && this.age == age
      ensures status == Active
      ensures team == null
    {
      this.username := username;
      this.age := age;
      this.status := Active;
      this.team := null;
    }

    /** changeTeam: the team becomes `team`, whatever it was; nothing else changes. */
    method ChangeTeam(team: Team?)
      modifies this`team
      ensures this.team == team
      ensures username == old(username) && age == old(age) && status == old(status)
    {
      this.team := team;
    }
  }

  class Team {
    var name: string
    var members: seq<Member>

    /** Every listed member points back to this team. */
    ghost predicate Valid()
      reads this, members
    {
      forall i :: 0 <= i < |members| ==> members[i].team == this
    }

    /** Team.of: a new team has the given name and no members. */
    constructor Of(name: string)
      ensures this.name == name && members == []
      ensures Valid()
    {
      this.name := name;
      this.members := [];
    }

    /**
     * addMember: appends `member` (without looking for an earlier copy) and
     * makes it point to this team; only this list and that member's team change.
     */
    method AddMember(member: Member)
      modifies this`members, member`team
      ensures members == old(members) + [member]
      ensures member.team == this
      ensures name == old(name)
      ensures member.username == old(member.username) && member.age == old(member.age)
      ensures member.status == old(member.status)
      ensures old(Valid()) ==> Valid()
    {
      members := members + [member];
      member.ChangeTeam(this);
    }
  }
}
