/**
 * The navigation sidebar of the web client: which pages it links to,
 * depending on the role of the signed-in user.
 */
module Sidebar {
  import opened Wrappers
  import opened Schema

  /** A navigation entry: its target path and the translation key of its label. */
  datatype Link = Link(href: string, labelKey: string)

  const Dashboard := Link("/", "common.dashboard")
  const Subsidiaries := Link("/subsidiaries", "common.subsidiaries")
  const Users := Link("/users", "common.users")
  const Reports := Link("/reports", "common.reports")
  const ActivityLogs := Link("/activity-logs", "common.activityLogs")
  const Settings := Link("/settings", "common.settings")
  const Inventory := Link("/inventory", "common.inventory")
  const Sales := Link("/sales", "common.sales")

  /** The links shown to a user with the given role, or to nobody signed in. */
  function Links(role: Option<Role>): seq<Link> {
    if role == Some(MhcAdmin) then [Dashboard, Subsidiaries, Users, Reports, ActivityLogs, Settings]
    else [Dashboard, Inventory, Sales] + (if role == Some(SubsidiaryAdmin) then [Users] else [])
  }

  function Hrefs(links: seq<Link>): (r: seq<string>)
    ensures |r| == |links| && forall i :: 0 <= i < |links| ==> r[i] == links[i].href
  {
    seq(|links|, i requires 0 <= i < |links| => links[i].href)
  }

  /** The holding administrator sees the six holding pages, in this order. */
  lemma HoldingLinks()
    ensures Hrefs(Links(Some(MhcAdmin))) == ["/", "/subsidiaries", "/users", "/reports", "/activity-logs", "/settings"]
  {
  }

  /** Every other user, signed in or not, starts with the dashboard, inventory and sales, in this order. */
  lemma MemberLinksStart(role: Option<Role>)
    requires role != Some(MhcAdmin)
    ensures |Links(role)| >= 3 && Hrefs(Links(role))[..3] == ["/", "/inventory", "/sales"]
  {
  }

  /** Outside the holding, the users page is listed exactly for subsidiary administrators. */
  lemma UsersLinkIffSubsidiaryAdmin(role: Option<Role>)
    requires role != Some(MhcAdmin)
    ensures "/users" in Hrefs(Links(role)) <==> role == Some(SubsidiaryAdmin)
  {
    var hs := Hrefs(Links(role));
    if role != Some(SubsidiaryAdmin) {
      assert hs == ["/", "/inventory", "/sales"];
    } else {
      assert hs[3] == "/users";
    }
  }

  /** Outside the holding, no link leads to a holding page. */
  lemma HoldingPagesHidden(role: Option<Role>)
    requires role != Some(MhcAdmin)
    ensures forall h :: h in Hrefs(Links(role)) ==> h !in ["/subsidiaries", "/reports", "/activity-logs", "/settings"]
  {
    var hs := Hrefs(Links(role));
    assert hs == ["/", "/inventory", "/sales"] || hs == ["/", "/inventory", "/sales", "/users"];
  }

  /** No list links to the same page twice. */
  lemma DistinctHrefs(role: Option<Role>)
    ensures forall i, j :: 0 <= i < j < |Links(role)| ==> Links(role)[i].href != Links(role)[j].href
  {
  }
}
