/** Opening a team's detail view (App.tsx:158-168): each team becomes a modal
    item whose roster is resolved at click time by filtering all members on
    `team_id`. */
module Teams {
  import opened Types
  import opened Seqs

  /** The member belongs to the team with id `teamId`. */
  function OnTeam(teamId: string): TeamMember -> bool
  {
    (m: TeamMember) => m.teamId == teamId
  }

  /** The fetched members that belong to `team`, in fetch order. */
  function Roster(members: seq<TeamMember>, team: Team): (r: seq<TeamMember>)
    ensures forall i :: 0 <= i < |r| ==> r[i].teamId == team.id
    ensures forall x :: multiset(r)[x] == if x.teamId == team.id then multiset(members)[x] else 0
  {
    FilterCounts(members, OnTeam(team.id));
    Filter(members, OnTeam(team.id))
  }

  /** The roster lists the team's members in the order they were fetched. */
  lemma RosterKeepsOrder(members: seq<TeamMember>, team: Team) returns (idx: seq<nat>)
    ensures SubsequenceVia(Roster(members, team), members, idx)
  {
    idx := FilterIsSubsequence(members, OnTeam(team.id));
  }

  /** The record the detail view draws. `members` is absent for non-team items. */
  datatype ModalItem = ModalItem(
    id: string,
    image: string,
    title: string,
    subtitle: Option<string>,
    description: Option<string>,
    members: Option<seq<TeamMember>>)

  /** The team's own image when it has a non-empty URL, else a placeholder
      picture seeded by the team's id. */
  function ImageOrPlaceholder(imageUrl: string, id: string): string
  {
    if imageUrl != "" then imageUrl else "https://picsum.photos/seed/" + id + "/800/600"
  }

  function TeamItem(team: Team, members: seq<TeamMember>): ModalItem
  {
    ModalItem(team.id, ImageOrPlaceholder(team.imageUrl, team.id), team.name,
              None, Some(team.description), Some(Roster(members, team)))
  }

  /** `openModal(teams, index, 'team')` builds one item per team, in order. */
  function TeamModalItems(teams: seq<Team>, members: seq<TeamMember>): (items: seq<ModalItem>)
    ensures |items| == |teams|
    ensures forall i :: 0 <= i < |teams| ==>
              && items[i].id == teams[i].id
              && items[i].title == teams[i].name
              && items[i].subtitle.None?
              && items[i].description == Some(teams[i].description)
              && items[i].members == Some(Roster(members, teams[i]))
    ensures forall i :: 0 <= i < |teams| && teams[i].imageUrl != "" ==> items[i].image == teams[i].imageUrl
    ensures forall i :: 0 <= i < |teams| && teams[i].imageUrl == "" ==>
              items[i].image == "https://picsum.photos/seed/" + teams[i].id + "/800/600"
  {
    seq(|teams|, i requires 0 <= i < |teams| => TeamItem(teams[i], members))
  }

  /** The "Plantel" block is drawn whenever `members` is present, which for a
      team is always, even when no member carries its id. */
  predicate ShowsRosterBlock(item: ModalItem)
  {
    item.members.Some?
  }

  lemma TeamItemsAlwaysShowRoster(teams: seq<Team>, members: seq<TeamMember>)
    ensures forall item :: item in TeamModalItems(teams, members) ==> ShowsRosterBlock(item)
  {
  }

  /** Members of team A fetched as [1 (A), 2 (B), 3 (A)] give the roster [1, 3]. */
  lemma RosterExample(a: Team, m1: TeamMember, m2: TeamMember, m3: TeamMember)
    requires m1.teamId == a.id && m2.teamId != a.id && m3.teamId == a.id
    ensures Roster([m1, m2, m3], a) == [m1, m3]
  {
    var p := OnTeam(a.id);
    assert [m3][1..] == [];
    assert Filter([m3], p) == [m3] + Filter([], p);
    assert [m2, m3][1..] == [m3];
    assert Filter([m2, m3], p) == [m3];
    assert [m1, m2, m3][1..] == [m2, m3];
    assert Filter([m1, m2, m3], p) == [m1] + [m3];
  }
}
