/** What a page store promises its client, whichever store it is: the tree is proved
    against the in-memory one, and the file store acts on the client's pages in the
    same way. */
module StoreContract {
  import opened TreeModel

  /** The pages a client owns: their contents once written, the ones its last commit
      keeps, the ones handed out and not yet written, the ones written since. */
  datatype Client = Client(pages: map<PageId, Node>, live: set<PageId>, committed: set<PageId>,
                           handed: set<PageId>, written: set<PageId>)

  ghost predicate Allocates(c: Client, c': Client, id: PageId) {
    id != 0 && id !in c.live && c' == c.(live := c.live + {id}, handed := c.handed + {id})
  }

  ghost predicate Writes(c: Client, c': Client, id: PageId, node: Node) {
    && id in c.handed + c.written
    && c' == c.(pages := c.pages[id := node], handed := c.handed - {id}, written := c.written + {id})
  }

  ghost predicate Frees(c: Client, c': Client, id: PageId) {
    && id in c.live && id !in c.committed
    && c' == c.(pages := c.pages - {id}, live := c.live - {id}, handed := c.handed - {id}, written := c.written - {id})
  }

  ghost predicate Commits(c: Client, c': Client, tree: set<PageId>) {
    tree <= c.committed + c.written && c' == c.(committed := tree, written := c.written - tree)
  }
}
