/** The dashboard frame (components/DashboardLayout.tsx): the sidebar's
    links for each role and the header's page title. */
module Layout {
  import opened Seqs
  import opened Types

  datatype Link = Link(to: string, caption: string, end: bool)

  /** The sidebar: five links for a conditioner, two for a player, none without a user. */
  function SidebarLinks(user: Option<User>): (r: seq<Link>)
    ensures user.None? ==> r == []
    ensures user.Some? && user.value.role == Conditioner ==> |r| == 5
    ensures user.Some? && user.value.role == PlayerRole ==> |r| == 2
    ensures forall i :: 0 <= i < |r| ==> (r[i].end <==> r[i].to == "/")
    ensures forall i, j :: 0 <= i < j < |r| ==> r[i].to != r[j].to
  {
    match user
    case None => []
    case Some(u) =>
      match u.role
      case Conditioner => [Link("/", "Anasayfa", true), Link("/players", "Oyuncular", false),
                           Link("/calendar", "Takvim", false), Link("/survey-management", "Anket Yönetimi", false),
                           Link("/metrics", "Ölçümleri Yönet", false)]
      case PlayerRole => [Link("/", "Gösterge Paneli", true), Link("/survey", "Günlük Anket", false)]
  }

  /** `NavLink`'s highlight: the path itself, or below it unless the link is `end`.
      Paths are compared exactly; `NavLink` itself ignores case. */
  predicate IsActive(link: Link, path: string)
  {
    path == link.to || (!link.end && link.to + "/" <= path)
  }

  const ProfilePrefix: string := "/player/"

  predicate IsConditioner(user: Option<User>)
  {
    user.Some? && user.value.role == Conditioner
  }

  /** `getPageTitle`: the title of the exact paths, 'Oyuncu Profili' for
      every profile, and the application's name anywhere else. */
  function PageTitle(path: string, user: Option<User>): (title: string)
    ensures path == "/" ==> title == (if IsConditioner(user) then "Anasayfa" else "Gösterge Paneli")
    ensures ProfilePrefix <= path ==> title == "Oyuncu Profili"
    ensures title == "Kondisca" <==>
              path !in {"/", "/players", "/metrics", "/survey-management", "/calendar", "/survey"} &&
              !(ProfilePrefix <= path)
  {
    if path == "/" then (if IsConditioner(user) then "Anasayfa" else "Gösterge Paneli")
    else if ProfilePrefix <= path then "Oyuncu Profili"
    else if path == "/players" then "Tüm Oyuncular"
    else if path == "/metrics" then "Ölçüm Yönetimi"
    else if path == "/survey-management" then "Anket Yönetimi"
    else if path == "/calendar" then "Takım Takvimi"
    else if path == "/survey" then "Günlük Sağlık Anketi"
    else "Kondisca"
  }

  /** Every sidebar link leads to a page with its own title, and the home
      link's caption is the home page's title for that role. */
  lemma LinksHaveTitles(user: Option<User>, i: int)
    requires 0 <= i < |SidebarLinks(user)|
    ensures var l := SidebarLinks(user)[i];
            PageTitle(l.to, user) != "Kondisca" && IsActive(l, l.to) &&
            (l.to == "/" ==> PageTitle(l.to, user) == l.caption)
  {
  }

  /** The home link is highlighted only on the home page; any other link
      also on the pages below it. */
  lemma HomeLinkExact(user: Option<User>, path: string)
    requires |SidebarLinks(user)| > 0
    ensures IsActive(SidebarLinks(user)[0], path) <==> path == "/"
  {
  }
}
