/** Menu rows, the heap nodes the controllers link, and the trees those nodes represent. */
module MenuModel {

  /** The menu type column: a canonical code, or anything else found in the data. */
  datatype Kind = Directory | Menu | Button | Unsupported(code: string)

  /** One sys_menu row. `query` is the decoded query_param column; the time stamps are not modelled. */
  datatype SysMenu = SysMenu(
    id: int, parentId: int, name: string, menuKey: string, path: string, component: string,
    perms: string, icon: string, kind: Kind, sort: int, visible: int, status: int,
    isFrame: int, isCache: int, query: map<string, string>, remark: string)

  /** URL prefix of hosted plugin assets, and the component of dynamic plugin pages. */
  const HOSTED_PREFIX := "/x-assets/"
  const DYNAMIC_PAGE := "system/plugin/dynamic-page"

  /** A heap node: the copied row, and the child slice that linking appends to. */
  class MenuItem {
    const menu: SysMenu
    var children: seq<MenuItem>

    constructor (menu: SysMenu)
      ensures this.menu == menu && children == []
    {
      this.menu := menu;
      children := [];
    }
  }

  /** The value of a linked node. */
  datatype Tree = Node(menu: SysMenu, children: seq<Tree>)

  function Menus(nodes: seq<MenuItem>): seq<SysMenu> {
    if nodes == [] then [] else [nodes[0].menu] + Menus(nodes[1..])
  }

  /** The heap below `roots` is exactly the finite forest `ts`, and stays inside `repr`. */
  ghost predicate Represents(roots: seq<MenuItem>, ts: seq<Tree>, repr: set<MenuItem>)
    reads repr
    decreases ts
  {
    if ts == [] then roots == []
    else
      && roots != []
      && roots[0] in repr
      && roots[0].menu == ts[0].menu
      && Represents(roots[0].children, ts[0].children, repr)
      && Represents(roots[1..], ts[1..], repr)
  }

  function PreorderIds(ts: seq<Tree>): seq<int>
  {
    if ts == [] then []
    else [ts[0].menu.id] + PreorderIds(ts[0].children) + PreorderIds(ts[1..])
  }
}
