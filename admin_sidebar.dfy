/** The navigation of the admin sidebar (components/admin/AdminSidebar.tsx): which item
    is highlighted for the current path, and the items that are shown but disabled. */
module AdminSidebar {

  import Seqs

  datatype NavItem = NavItem(name: string, href: string, disabled: bool)

  const DashboardHref: string := "/admin"

  /** The items, in display order. */
  const Navigation: seq<NavItem> := [
    NavItem("Dashboard", "/admin", false),
    NavItem("Articles", "/admin/articles", false),
    NavItem("Calendar", "/admin/articles/calendar", false),
    NavItem("Categories", "/admin/categories", false),
    NavItem("Authors", "/admin/authors", true),
    NavItem("Settings", "/admin/settings", true)
  ]

  /** `isActive`: the dashboard only on its own path; any other item on every path that
      starts with its href, character by character (there is no check for a `/` after the
      prefix). */
  function IsActive(pathname: string, item: NavItem): (b: bool)
    ensures item.href == DashboardHref ==> (b <==> pathname == DashboardHref)
    ensures item.href != DashboardHref ==> (b <==> item.href <= pathname)
  {
    pathname == item.href || (item.href != DashboardHref && item.href <= pathname)
  }

  /** The link target: `#` for a disabled item. */
  function LinkHref(item: NavItem): (h: string)
    ensures item.disabled ==> h == "#"
    ensures !item.disabled ==> h == item.href
  {
    if item.disabled then "#" else item.href
  }

  /** Whether a click navigates: the handler calls `preventDefault` exactly on disabled
      items. */
  function ClickNavigates(item: NavItem): (b: bool)
    ensures b <==> !item.disabled
  {
    !item.disabled
  }

  /** The names of the menu items, in display order. */
  function Names(items: seq<NavItem>): seq<string>
  {
    if items == [] then [] else [items[0].name] + Names(items[1..])
  }

  /** The names of the highlighted items for a path, in display order. */
  function ActiveNames(pathname: string, items: seq<NavItem>): (r: seq<string>)
    ensures |r| <= |items|
    ensures forall i :: 0 <= i < |items| && IsActive(pathname, items[i]) ==> items[i].name in r
    ensures forall n :: n in r ==> exists i :: 0 <= i < |items| && items[i].name == n && IsActive(pathname, items[i])
    ensures Seqs.IsSubseq(r, Names(items))
  {
    if items == [] then []
    else
      var rest := ActiveNames(pathname, items[1..]);
      assert forall i :: 1 <= i < |items| ==> items[i] == items[1..][i - 1];
      assert Names(items) == [items[0].name] + Names(items[1..]);
      assert Names(items)[1..] == Names(items[1..]);
      Seqs.SubseqFromTail(rest, Names(items[1..]), items[0].name);
      if IsActive(pathname, items[0]) then
        assert ([items[0].name] + rest)[1..] == rest;
        [items[0].name] + rest
      else
        rest
  }

  /** Any item other than the dashboard stays highlighted on every path below its href,
      including paths that merely extend its last segment (such as `/admin/categoriesX`). */
  lemma ActiveBelowHref(item: NavItem, rest: string)
    requires item.href != DashboardHref
    ensures IsActive(item.href + rest, item)
  {
    assert item.href <= item.href + rest;
  }

  /** On the calendar page both "Articles" and "Calendar" are highlighted, and the
      dashboard is not. */
  lemma CalendarHighlightsTwo()
    ensures var p := Navigation[2].href;
      && IsActive(p, Navigation[1]) && IsActive(p, Navigation[2])
      && !IsActive(p, Navigation[0])
  {
    ActiveBelowHref(Navigation[1], "/calendar");
  }

  /** The only disabled items are "Authors" and "Settings"; both link to `#`. */
  lemma DisabledItems()
    ensures forall i :: 0 <= i < |Navigation| ==> (Navigation[i].disabled <==> i == 4 || i == 5)
    ensures LinkHref(Navigation[4]) == "#" && LinkHref(Navigation[5]) == "#"
  {
  }
}
