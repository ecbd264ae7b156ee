/** Record shapes of the club's tables, reduced to what the landing page reads,
    plus the optional-value wrapper used for JavaScript's `undefined`. */
module Types {

  /** A value that may be absent (`undefined` in the page's code). */
  datatype Option<+T> = None | Some(value: T)

  /** A point in time in milliseconds since the epoch, i.e. `new Date(s).getTime()`. */
  type Timestamp = int

  /** One row of the `matches` table. The scores are absent until the match is played. */
  datatype Match = Match(
    id: string,
    date: Timestamp,
    homeTeam: string,
    guestTeam: string,
    location: string,
    scoreHome: Option<int>,
    scoreGuest: Option<int>,
    category: string)

  /** One row of the `teams` table. */
  datatype Team = Team(id: string, name: string, category: string, description: string, imageUrl: string)

  /** One row of the `team_members` table; `teamId` refers to a `Team`'s `id`. */
  datatype TeamMember = TeamMember(
    id: string,
    teamId: string,
    name: string,
    number: string,
    position: string,
    imageUrl: string)

  /** One row of the `site_content` table: an override of one page section's texts and image. */
  datatype SiteContent = SiteContent(id: string, section: string, title: string, subtitle: string, imageUrl: string)
}
