/** The intrusive circular list of list.c: nodes carry their own links, so a node
    can be moved from one list to another by relinking it. */
module IntrusiveList {
  import opened Sequences

  /** The link fields embedded in every listed structure, with that structure's
      own data as `item`. A header's item is never looked at. */
  class ListNode<T(0)> {
    const headFlag: bool
    const item: T
    var prev: ListNode<T>
    var next: ListNode<T>

    constructor Header()
      ensures headFlag && prev == this && next == this
    {
      headFlag := true;
      prev, next := this, this;
    }

    constructor Plain(item: T)
      ensures !headFlag && this.item == item && prev == this && next == this
    {
      headFlag := false;
      this.item := item;
      prev, next := this, this;
    }

    function Next(): ListNode?<T>
      reads this
    {
      if next.headFlag then null else next
    }

    function Prev(): ListNode?<T>
      reads this
    {
      if prev.headFlag then null else prev
    }

    function NextCircular(): ListNode<T>
      reads this, next
    {
      if next.headFlag then next.next else next
    }

    function PrevCircular(): ListNode<T>
      reads this, prev
    {
      if prev.headFlag then prev.prev else prev
    }
  }

  /** One direction of links, as a value. */
  type Links<T(0)> = map<ListNode<T>, ListNode<T>>

  /** Which nodes stand in which list, in order, by list header. */
  type Lists<T(0)> = map<ListNode<T>, seq<ListNode<T>>>

  // ---- Shape: what links make a list --------------------------------------

  /** Always true: naming At(i) is how a proof asks for the links at position i. */
  ghost predicate At(i: int) { true }

  /** Following nx from header h visits the nodes s in this order and comes back to h. */
  ghost predicate Forward<T(0)>(nx: Links<T>, h: ListNode<T>, s: seq<ListNode<T>>)
  {
    && h in nx && nx[h] == (if s == [] then h else s[0])
    && (forall i {:trigger At(i)} :: 0 <= i < |s| && At(i) ==>
      s[i] in nx && nx[s[i]] == if i == |s| - 1 then h else s[i + 1])
  }

  /** Following pv from header h visits the nodes s in reverse and comes back to h. */
  ghost predicate Backward<T(0)>(pv: Links<T>, h: ListNode<T>, s: seq<ListNode<T>>)
  {
    && h in pv && pv[h] == (if s == [] then h else s[|s| - 1])
    && (forall i {:trigger At(i)} :: 0 <= i < |s| && At(i) ==>
      s[i] in pv && pv[s[i]] == if i == 0 then h else s[i - 1])
  }

  ghost predicate Circle<T(0)>(nx: Links<T>, pv: Links<T>, h: ListNode<T>, s: seq<ListNode<T>>)
  {
    Forward(nx, h, s) && Backward(pv, h, s)
  }

  /** Links in one direction after x is cut out: the neighbour `from` skips to `to`, x points at itself. */
  ghost function Cut<T(0)>(links: Links<T>, from: ListNode<T>, to: ListNode<T>, x: ListNode<T>): Links<T>
  {
    links[from := to][x := x]
  }

  /** Links in one direction after x, standing alone, is tied in between `from` and `to`. */
  ghost function Tie<T(0)>(links: Links<T>, from: ListNode<T>, to: ListNode<T>, x: ListNode<T>): Links<T>
  {
    links[x := to][from := x]
  }

  lemma CutForward<T(0)>(nx: Links<T>, h: ListNode<T>, s: seq<ListNode<T>>, k: nat)
    requires Forward(nx, h, s) && NoDup(s) && h !in s && k < |s|
    ensures s[k] in nx
    ensures var from := if k == 0 then h else s[k - 1];
            Forward(Cut(nx, from, nx[s[k]], s[k]), h, s[..k] + s[k + 1..])
  {
    assert At(k);
    var s' := s[..k] + s[k + 1..];
    var nx' := Cut(nx, if k == 0 then h else s[k - 1], nx[s[k]], s[k]);
    forall i {:trigger At(i)} | 0 <= i < |s'| && At(i)
      ensures s'[i] in nx' && nx'[s'[i]] == if i == |s'| - 1 then h else s'[i + 1]
    {
      assert At(if i < k then i else i + 1);
    }
  }

  lemma CutBackward<T(0)>(pv: Links<T>, h: ListNode<T>, s: seq<ListNode<T>>, k: nat)
    requires Backward(pv, h, s) && NoDup(s) && h !in s && k < |s|
    ensures s[k] in pv
    ensures var from := if k == |s| - 1 then h else s[k + 1];
            Backward(Cut(pv, from, pv[s[k]], s[k]), h, s[..k] + s[k + 1..])
  {
    assert At(k);
    var s' := s[..k] + s[k + 1..];
    var pv' := Cut(pv, if k == |s| - 1 then h else s[k + 1], pv[s[k]], s[k]);
    forall i {:trigger At(i)} | 0 <= i < |s'| && At(i)
      ensures s'[i] in pv' && pv'[s'[i]] == if i == 0 then h else s'[i - 1]
    {
      assert At(if i < k then i else i + 1);
    }
  }

  lemma TieForward<T(0)>(nx: Links<T>, h: ListNode<T>, s: seq<ListNode<T>>, k: nat, x: ListNode<T>)
    requires Forward(nx, h, s) && NoDup(s) && h !in s && x !in s && x != h && k <= |s|
    ensures var from := if k == 0 then h else s[k - 1];
            var to := if k == |s| then h else s[k];
            Forward(Tie(nx, from, to, x), h, s[..k] + [x] + s[k..])
  {
    var s' := s[..k] + [x] + s[k..];
    var nx' := Tie(nx, if k == 0 then h else s[k - 1], if k == |s| then h else s[k], x);
    forall i {:trigger At(i)} | 0 <= i < |s'| && At(i)
      ensures s'[i] in nx' && nx'[s'[i]] == if i == |s'| - 1 then h else s'[i + 1]
    {
      assert At(if i < k then i else i - 1);
    }
  }

  lemma TieBackward<T(0)>(pv: Links<T>, h: ListNode<T>, s: seq<ListNode<T>>, k: nat, x: ListNode<T>)
    requires Backward(pv, h, s) && NoDup(s) && h !in s && x !in s && x != h && k <= |s|
    ensures var from := if k == |s| then h else s[k];
            var to := if k == 0 then h else s[k - 1];
            Backward(Tie(pv, from, to, x), h, s[..k] + [x] + s[k..])
  {
    var s' := s[..k] + [x] + s[k..];
    var pv' := Tie(pv, if k == |s| then h else s[k], if k == 0 then h else s[k - 1], x);
    forall i {:trigger At(i)} | 0 <= i < |s'| && At(i)
      ensures s'[i] in pv' && pv'[s'[i]] == if i == 0 then h else s'[i - 1]
    {
      assert At(if i < k then i else i - 1);
    }
  }

  /** Unlinking the k-th node closes the circle of the others. */
  lemma CutCircle<T(0)>(nx: Links<T>, pv: Links<T>, h: ListNode<T>, s: seq<ListNode<T>>, k: nat)
    requires Circle(nx, pv, h, s) && NoDup(s) && h !in s && k < |s|
    ensures var x := s[k];
            x in nx && x in pv
            && Circle(Cut(nx, pv[x], nx[x], x), Cut(pv, nx[x], pv[x], x), h, s[..k] + s[k + 1..])
  {
    assert At(k);
    CutForward(nx, h, s, k);
    CutBackward(pv, h, s, k);
  }

  /** Linking a lone node in behind p, which stands at k - 1, puts it at k. */
  lemma TieCircle<T(0)>(nx: Links<T>, pv: Links<T>, h: ListNode<T>, s: seq<ListNode<T>>, k: nat, x: ListNode<T>)
    requires Circle(nx, pv, h, s) && NoDup(s) && h !in s && x !in s && x != h && k <= |s|
    ensures var p := if k == 0 then h else s[k - 1];
            p in nx && Circle(Tie(nx, p, nx[p], x), Tie(pv, nx[p], p, x), h, s[..k] + [x] + s[k..])
  {
    assert At(k - 1);
    TieForward(nx, h, s, k, x);
    TieBackward(pv, h, s, k, x);
  }

  lemma CircleElsewhere<T(0)>(links: Links<T>, links': Links<T>, h: ListNode<T>, s: seq<ListNode<T>>)
    requires links.Keys <= links'.Keys
    requires h in links ==> links'[h] == links[h]
    requires forall i :: 0 <= i < |s| && s[i] in links ==> links'[s[i]] == links[s[i]]
    ensures Forward(links, h, s) ==> Forward(links', h, s)
    ensures Backward(links, h, s) ==> Backward(links', h, s)
  {
  }

  // ---- Layout: which node is in which list ---------------------------------

  /** The header of the circle y is part of; y itself when it stands alone. */
  ghost function Home<T(0)>(owner: Links<T>, y: ListNode<T>): ListNode<T> {
    if y in owner then owner[y] else y
  }

  /** The nodes of s exist, are distinct, and have h as their owner. */
  ghost predicate OwnedBy<T(0)>(h: ListNode<T>, s: seq<ListNode<T>>, nodes: set<ListNode<T>>, owner: Links<T>)
  {
    NoDup(s) && forall i :: 0 <= i < |s| ==> s[i] in nodes && s[i] in owner && owner[s[i]] == h
  }

  lemma OwnedElement<T(0)>(h: ListNode<T>, s: seq<ListNode<T>>, nodes: set<ListNode<T>>, owner: Links<T>,
                           y: ListNode<T>)
    requires OwnedBy(h, s, nodes, owner)
    ensures y in s ==> y in nodes && y in owner && owner[y] == h
  {
  }

  /** Each listed node is in one list, the one of its owner; headers are exactly the flagged nodes. */
  ghost predicate Layout<T(0)>(nodes: set<ListNode<T>>, lists: Lists<T>, owner: Links<T>)
  {
    && lists.Keys <= nodes && lists.Keys !! owner.Keys
    && (forall h {:trigger lists[h]} :: h in lists ==> OwnedBy(h, lists[h], nodes, owner))
    && (forall x {:trigger owner[x]} :: x in owner ==> owner[x] in lists && x in lists[owner[x]])
    && (forall x {:trigger x.headFlag} :: x in nodes ==> (x.headFlag <==> x in lists))
  }

  /** Every list is a circle, and every unlisted node stands alone. */
  ghost predicate Linked<T(0)>(nodes: set<ListNode<T>>, nx: Links<T>, pv: Links<T>, lists: Lists<T>, owner: Links<T>)
  {
    && nx.Keys == nodes && pv.Keys == nodes
    && (forall h {:trigger lists[h]} :: h in lists ==> Circle(nx, pv, h, lists[h]))
    && (forall x {:trigger Home(owner, x)} :: x in nodes && !x.headFlag && x !in owner ==> nx[x] == x && pv[x] == x)
  }

  lemma ListOwned<T(0)>(nodes: set<ListNode<T>>, lists: Lists<T>, owner: Links<T>, h: ListNode<T>)
    requires Layout(nodes, lists, owner) && h in lists
    ensures OwnedBy(h, lists[h], nodes, owner) && NoDup(lists[h])
    ensures h in nodes && h.headFlag && h !in lists[h]
  {
  }

  /** List contents after x is unlinked from whichever list holds it. */
  ghost function Removed<T(0)>(lists: Lists<T>, x: ListNode<T>): Lists<T>
  {
    map h | h in lists :: Without(lists[h], x)
  }

  /** Header h with contents s, after x is linked in behind p. */
  ghost function Placed<T(0)>(h: ListNode<T>, s: seq<ListNode<T>>, p: ListNode<T>, x: ListNode<T>): seq<ListNode<T>>
  {
    if p == h then [x] + s else After(s, p, x)
  }

  /** List contents after x, so far in no list, is linked in behind p. */
  ghost function PlacedAll<T(0)>(lists: Lists<T>, p: ListNode<T>, x: ListNode<T>): Lists<T>
  {
    map h | h in lists :: Placed(h, lists[h], p, x)
  }

  /** List contents after x is unlinked and linked in behind p. */
  ghost function Inserted<T(0)>(lists: Lists<T>, p: ListNode<T>, x: ListNode<T>): Lists<T>
  {
    PlacedAll(Removed(lists, x), p, x)
  }

  lemma WithoutOwned<T(0)>(h: ListNode<T>, s: seq<ListNode<T>>, nodes: set<ListNode<T>>, owner: Links<T>,
                           x: ListNode<T>)
    requires OwnedBy(h, s, nodes, owner)
    ensures OwnedBy(h, Without(s, x), nodes, owner - {x})
    ensures x !in owner || owner[x] != h ==> Without(s, x) == s
  {
    WithoutNoDup(s, x);
    forall i | 0 <= i < |Without(s, x)|
      ensures Without(s, x)[i] in s && Without(s, x)[i] != x
    {
      WithoutMember(s, x, Without(s, x)[i]);
    }
  }

  lemma RemovedLayout<T(0)>(nodes: set<ListNode<T>>, lists: Lists<T>, owner: Links<T>, x: ListNode<T>)
    requires Layout(nodes, lists, owner) && x in nodes && !x.headFlag
    ensures Layout(nodes, Removed(lists, x), owner - {x})
    ensures forall h :: h in lists && (x in owner ==> h != owner[x]) ==> Removed(lists, x)[h] == lists[h]
  {
    hide OwnedBy, Without;
    forall h | h in lists
      ensures OwnedBy(h, Without(lists[h], x), nodes, owner - {x})
      ensures x !in owner || owner[x] != h ==> Without(lists[h], x) == lists[h]
    {
      assert OwnedBy(h, lists[h], nodes, owner);
      WithoutOwned(h, lists[h], nodes, owner, x);
    }
    forall y | y in owner && y != x
      ensures owner[y] in lists && y in Without(lists[owner[y]], x)
    {
      ListOwned(nodes, lists, owner, owner[y]);
      WithoutMember(lists[owner[y]], x, y);
    }
  }

  lemma PlacedOwned<T(0)>(g: ListNode<T>, s: seq<ListNode<T>>, nodes: set<ListNode<T>>, owner: Links<T>,
                          p: ListNode<T>, x: ListNode<T>, h: ListNode<T>)
    requires OwnedBy(g, s, nodes, owner) && x in nodes && x !in owner
    requires p == g || p in s ==> g == h
    ensures OwnedBy(g, Placed(g, s, p, x), nodes, owner[x := h])
    ensures p == g || p in s || Placed(g, s, p, x) == s
  {
  }

  lemma PlacedLayout<T(0)>(nodes: set<ListNode<T>>, lists: Lists<T>, owner: Links<T>, p: ListNode<T>, x: ListNode<T>)
    requires Layout(nodes, lists, owner) && x in nodes && !x.headFlag && x !in owner
    requires p in lists || p in owner
    ensures Layout(nodes, PlacedAll(lists, p, x), owner[x := Home(owner, p)])
  {
    var h := Home(owner, p);
    var lists', owner' := PlacedAll(lists, p, x), owner[x := h];
    forall g | g in lists
      ensures OwnedBy(g, lists'[g], nodes, owner')
    {
      assert OwnedBy(g, lists[g], nodes, owner);
      OwnedElement(g, lists[g], nodes, owner, p);
      PlacedOwned(g, lists[g], nodes, owner, p, x, h);
    }
    forall y | y in owner'
      ensures owner'[y] in lists' && y in lists'[owner'[y]]
    {
      var g := owner'[y];
      assert lists'[g] == Placed(g, lists[g], p, x);
      AfterMember(lists[g], p, x, y);
    }
  }

  lemma NeighboursShareHome<T(0)>(nodes: set<ListNode<T>>, nx: Links<T>, pv: Links<T>, lists: Lists<T>, owner: Links<T>,
                                  y: ListNode<T>)
    requires Layout(nodes, lists, owner) && Linked(nodes, nx, pv, lists, owner) && y in nodes
    ensures nx[y] in nodes && Home(owner, nx[y]) == Home(owner, y)
    ensures pv[y] in nodes && Home(owner, pv[y]) == Home(owner, y)
  {
    var h := Home(owner, y);
    if h in lists {
      assert OwnedBy(h, lists[h], nodes, owner) && Circle(nx, pv, h, lists[h]);
      if y in owner {
        assert At(IndexOf(lists[h], y));
      }
    }
  }

  /** Changing links only at nodes that live elsewhere keeps a circle. */
  lemma CircleKept<T(0)>(nodes: set<ListNode<T>>, nx: Links<T>, pv: Links<T>, nx': Links<T>, pv': Links<T>,
                         owner: Links<T>, g: ListNode<T>, s: seq<ListNode<T>>, h: ListNode<T>)
    requires Circle(nx, pv, g, s) && OwnedBy(g, s, nodes, owner) && g !in owner && h != g
    requires nx.Keys <= nx'.Keys && pv.Keys <= pv'.Keys
    requires forall y :: y in nx && Home(owner, y) != h ==> nx'[y] == nx[y]
    requires forall y :: y in pv && Home(owner, y) != h ==> pv'[y] == pv[y]
    ensures Circle(nx', pv', g, s)
  {
  }

  lemma RemovedCircle<T(0)>(nodes: set<ListNode<T>>, nx: Links<T>, pv: Links<T>, owner: Links<T>,
                            h: ListNode<T>, s: seq<ListNode<T>>, x: ListNode<T>)
    requires nx.Keys == nodes && pv.Keys == nodes && x in nodes
    requires Circle(nx, pv, h, s) && OwnedBy(h, s, nodes, owner) && h !in owner && h != x
    requires x in s <==> x in owner && owner[x] == h
    requires Home(owner, nx[x]) == Home(owner, x) == Home(owner, pv[x])
    ensures Circle(Cut(nx, pv[x], nx[x], x), Cut(pv, nx[x], pv[x], x), h, Without(s, x))
  {
    if x in s {
      CutCircle(nx, pv, h, s, IndexOf(s, x));
    } else {
      CircleKept(nodes, nx, pv, Cut(nx, pv[x], nx[x], x), Cut(pv, nx[x], pv[x], x), owner, h, s, Home(owner, x));
    }
  }

  lemma RemovedCircles<T(0)>(nodes: set<ListNode<T>>, nx: Links<T>, pv: Links<T>, lists: Lists<T>, owner: Links<T>,
                             x: ListNode<T>)
    requires Layout(nodes, lists, owner) && Linked(nodes, nx, pv, lists, owner) && x in nodes && !x.headFlag
    ensures nx[x] in nodes && pv[x] in nodes
    ensures forall h :: h in lists ==>
              Circle(Cut(nx, pv[x], nx[x], x), Cut(pv, nx[x], pv[x], x), h, Removed(lists, x)[h])
  {
    NeighboursShareHome(nodes, nx, pv, lists, owner, x);
    forall h | h in lists
      ensures Circle(Cut(nx, pv[x], nx[x], x), Cut(pv, nx[x], pv[x], x), h, Removed(lists, x)[h])
    {
      assert Circle(nx, pv, h, lists[h]) && OwnedBy(h, lists[h], nodes, owner);
      RemovedCircle(nodes, nx, pv, owner, h, lists[h], x);
    }
  }

  lemma RemovedAlone<T(0)>(nodes: set<ListNode<T>>, nx: Links<T>, pv: Links<T>, lists: Lists<T>, owner: Links<T>,
                           x: ListNode<T>, y: ListNode<T>)
    requires Layout(nodes, lists, owner) && Linked(nodes, nx, pv, lists, owner) && x in nodes && !x.headFlag
    requires y in nodes && !y.headFlag && y !in owner - {x}
    ensures Cut(nx, pv[x], nx[x], x)[y] == y && Cut(pv, nx[x], pv[x], x)[y] == y
  {
    NeighboursShareHome(nodes, nx, pv, lists, owner, x);
    assert Home(owner, y) == if y == x then Home(owner, x) else y;
  }

  lemma RemovedLinked<T(0)>(nodes: set<ListNode<T>>, nx: Links<T>, pv: Links<T>, lists: Lists<T>, owner: Links<T>,
                            x: ListNode<T>)
    requires Layout(nodes, lists, owner) && Linked(nodes, nx, pv, lists, owner) && x in nodes && !x.headFlag
    ensures nx[x] in nodes && pv[x] in nodes
    ensures Linked(nodes, Cut(nx, pv[x], nx[x], x), Cut(pv, nx[x], pv[x], x), Removed(lists, x), owner - {x})
  {
    hide Circle, OwnedBy;
    RemovedCircles(nodes, nx, pv, lists, owner, x);
    forall y | y in nodes && !y.headFlag && y !in owner - {x}
      ensures Cut(nx, pv[x], nx[x], x)[y] == y && Cut(pv, nx[x], pv[x], x)[y] == y
    {
      RemovedAlone(nodes, nx, pv, lists, owner, x, y);
    }
  }

  lemma PlacedCircle<T(0)>(nodes: set<ListNode<T>>, nx: Links<T>, pv: Links<T>, owner: Links<T>,
                           g: ListNode<T>, s: seq<ListNode<T>>, p: ListNode<T>, x: ListNode<T>)
    requires nx.Keys == nodes && pv.Keys == nodes && p in nodes && x in nodes && x !in owner
    requires Circle(nx, pv, g, s) && OwnedBy(g, s, nodes, owner) && g !in owner && g != x
    requires p == g || p in s <==> g == Home(owner, p)
    requires Home(owner, nx[p]) == Home(owner, p)
    ensures Circle(Tie(nx, p, nx[p], x), Tie(pv, nx[p], p, x), g, Placed(g, s, p, x))
  {
    assert x !in s;
    var nx', pv' := Tie(nx, p, nx[p], x), Tie(pv, nx[p], p, x);
    if p == g {
      TieCircle(nx, pv, g, s, 0, x);
      assert s[..0] + [x] + s[0..] == [x] + s;
    } else if p in s {
      TieCircle(nx, pv, g, s, IndexOf(s, p) + 1, x);
    } else {
      CircleElsewhere(nx, nx', g, s);
      CircleElsewhere(pv, pv', g, s);
    }
  }

  lemma PlacedLinked<T(0)>(nodes: set<ListNode<T>>, nx: Links<T>, pv: Links<T>, lists: Lists<T>, owner: Links<T>,
                           p: ListNode<T>, x: ListNode<T>)
    requires Layout(nodes, lists, owner) && Linked(nodes, nx, pv, lists, owner)
    requires x in nodes && !x.headFlag && x !in owner && p in nodes && (p in lists || p in owner)
    ensures nx[p] in nodes
    ensures Linked(nodes, Tie(nx, p, nx[p], x), Tie(pv, nx[p], p, x), PlacedAll(lists, p, x),
                   owner[x := Home(owner, p)])
  {
    hide Circle, OwnedBy, Placed, NoDup;
    NeighboursShareHome(nodes, nx, pv, lists, owner, p);
    var nx', pv' := Tie(nx, p, nx[p], x), Tie(pv, nx[p], p, x);
    forall g | g in lists
      ensures Circle(nx', pv', g, PlacedAll(lists, p, x)[g])
    {
      assert Circle(nx, pv, g, lists[g]) && OwnedBy(g, lists[g], nodes, owner);
      OwnedElement(g, lists[g], nodes, owner, p);
      PlacedCircle(nodes, nx, pv, owner, g, lists[g], p, x);
    }
    forall y | y in nodes && !y.headFlag && y !in owner[x := Home(owner, p)]
      ensures nx'[y] == y && pv'[y] == y
    {
      assert Home(owner, y) == y && y !in lists;
    }
  }

  /** Tying a lone node in behind itself changes no link and no list. */
  lemma AlonePlaced<T(0)>(nodes: set<ListNode<T>>, nx: Links<T>, pv: Links<T>, lists: Lists<T>, owner: Links<T>,
                          x: ListNode<T>)
    requires Layout(nodes, lists, owner) && Linked(nodes, nx, pv, lists, owner)
    requires x in nodes && !x.headFlag && x !in owner
    ensures nx[x] == x
    ensures PlacedAll(lists, x, x) == lists
    ensures Tie(nx, x, x, x) == nx && Tie(pv, x, x, x) == pv
  {
    assert Home(owner, x) == x;
  }

  /** A new node that points at itself is an empty list or an unlisted node, by its flag. */
  lemma NodeAdded<T(0)>(nodes: set<ListNode<T>>, nx: Links<T>, pv: Links<T>, lists: Lists<T>, owner: Links<T>,
                        y: ListNode<T>)
    requires Layout(nodes, lists, owner) && Linked(nodes, nx, pv, lists, owner) && y !in nodes
    ensures y !in owner && y !in lists
    ensures var lists' := if y.headFlag then lists[y := []] else lists;
            Layout(nodes + {y}, lists', owner) && Linked(nodes + {y}, nx[y := y], pv[y := y], lists', owner)
  {
    assert y !in owner;
    forall h | h in lists
      ensures Circle(nx[y := y], pv[y := y], h, lists[h]) && OwnedBy(h, lists[h], nodes + {y}, owner)
    {
      assert Circle(nx, pv, h, lists[h]) && OwnedBy(h, lists[h], nodes, owner);
      CircleElsewhere(nx, nx[y := y], h, lists[h]);
      CircleElsewhere(pv, pv[y := y], h, lists[h]);
    }
    forall x | x in nodes && !x.headFlag && x !in owner
      ensures nx[x] == x && pv[x] == x
    {
      assert Home(owner, x) == x;
    }
  }

  /** Unlinking the k-th node of list h takes it out of that list and touches no other. */
  lemma RemovedFrom<T(0)>(nodes: set<ListNode<T>>, lists: Lists<T>, owner: Links<T>, h: ListNode<T>, k: nat)
    requires Layout(nodes, lists, owner) && h in lists && k < |lists[h]|
    ensures Removed(lists, lists[h][k]) == lists[h := lists[h][..k] + lists[h][k + 1..]]
  {
  }

  /** Unlinking a node that is in no list changes no list. */
  lemma RemovedFree<T(0)>(nodes: set<ListNode<T>>, lists: Lists<T>, owner: Links<T>, x: ListNode<T>)
    requires Layout(nodes, lists, owner) && x !in owner
    ensures Removed(lists, x) == lists
  {
  }

  /** Moving x in behind p, which heads or is in list h, changes only h and the list that held x. */
  lemma InsertedInto<T(0)>(nodes: set<ListNode<T>>, lists: Lists<T>, owner: Links<T>,
                           h: ListNode<T>, p: ListNode<T>, x: ListNode<T>)
    requires Layout(nodes, lists, owner) && h in lists && p != x
    requires p == h || p in lists[h]
    ensures Inserted(lists, p, x) == Removed(lists, x)[h := Placed(h, Without(lists[h], x), p, x)]
  {
  }

  /** Inserting a node behind itself takes it out. */
  lemma InsertedBehindItself<T(0)>(nodes: set<ListNode<T>>, lists: Lists<T>, owner: Links<T>, x: ListNode<T>)
    requires Layout(nodes, lists, owner) && x in nodes && !x.headFlag
    ensures Inserted(lists, x, x) == Removed(lists, x)
  {
  }

  lemma InsertedLast<T(0)>(nodes: set<ListNode<T>>, lists: Lists<T>, owner: Links<T>, h: ListNode<T>, x: ListNode<T>)
    requires Layout(nodes, lists, owner) && h in lists && x in nodes && !x.headFlag
    ensures var s := lists[h];
            var rest := Without(s, x);
            Inserted(lists, if s == [] then h else s[|s| - 1], x)
            == Removed(lists, x)[h := if s != [] && s[|s| - 1] == x then rest else rest + [x]]
  {
    var s := lists[h];
    var rest := Without(s, x);
    var p := if s == [] then h else s[|s| - 1];
    if p == x {
      InsertedBehindItself(nodes, lists, owner, x);
    } else {
      InsertedInto(nodes, lists, owner, h, p, x);
      if s != [] {
        OwnedElement(h, s, nodes, owner, p);
        WithoutNoDup(s, x);
        AfterAt(rest, p, x, |rest| - 1);
        assert rest[..|rest| - 1 + 1] + [x] + rest[|rest| - 1 + 1..] == rest + [x];
      } else {
        assert [x] + [] == [] + [x];
      }
    }
  }

  /** An insertion keeps the relative order of all other nodes in every list, and puts x
      directly behind p and nowhere else. */
  lemma InsertKeepsOrder<T(0)>(nodes: set<ListNode<T>>, lists: Lists<T>, owner: Links<T>, p: ListNode<T>,
                               x: ListNode<T>,
                               g: ListNode<T>)
    requires Layout(nodes, lists, owner) && x in nodes && !x.headFlag && p != x && p in nodes
    requires p in lists || p in owner
    requires g in lists
    ensures var s, s' := lists[g], Inserted(lists, p, x)[g];
            && (forall a, b :: a != x && b != x ==> (Before(s', a, b) <==> Before(s, a, b)))
            && (x in s' <==> g == Home(owner, p))
            && (x in s' ==> ([g] + s')[IndexOf(s', x)] == p)
  {
    var s := lists[g];
    assert OwnedBy(g, s, nodes, owner);
    var rest := Without(s, x);
    WithoutNoDup(s, x);
    WithoutMember(s, x, x);
    WithoutMember(s, x, p);
    OwnedElement(g, s, nodes, owner, p);
    WithoutOrder(s, x);
    AfterOrder(rest, p, x);
    AfterNoDup(rest, p, x);
    AfterMember(rest, p, x, x);
    ConsOrder(rest, x);
    if p in rest {
      AfterPosition(rest, p, x);
    }
  }

  // ---- The heap of lists ----------------------------------------------------

  ghost function Nexts<T(0)>(nodes: set<ListNode<T>>): Links<T>
    reads nodes
  {
    map x | x in nodes :: x.next
  }

  ghost function Prevs<T(0)>(nodes: set<ListNode<T>>): Links<T>
    reads nodes
  {
    map x | x in nodes :: x.prev
  }

  lemma StepsModulo(k: nat, n: nat)
    requires k < n
    ensures (k + 1) % n == if k + 1 == n then 0 else k + 1
    ensures (k - 1) % n == if k == 0 then n - 1 else k - 1
  {
  }

  /** A node that points at itself joins the links. */
  lemma LinksWith<T(0)>(nodes: set<ListNode<T>>, x: ListNode<T>)
    requires x.next == x && x.prev == x
    ensures Nexts(nodes + {x}) == Nexts(nodes)[x := x] && Prevs(nodes + {x}) == Prevs(nodes)[x := x]
  {
  }

  /** All headers and nodes that exist, with the contents of every list. `owner`
      gives the header of the list a node is linked into. */
  class ListHeap<T(0)> {
    ghost var nodes: set<ListNode<T>>
    ghost var lists: Lists<T>
    ghost var owner: Links<T>

    /** Every list in the heap is a well-formed circle with one header, and every other node stands alone. */
    ghost predicate Valid()
      reads this, nodes
    {
      Layout(nodes, lists, owner) && Linked(nodes, Nexts(nodes), Prevs(nodes), lists, owner)
    }

    constructor ()
      ensures Valid() && nodes == {} && lists == map[]
    {
      nodes, lists, owner := {}, map[], map[];
    }

    /** round_list_header_init */
    method NewHeader() returns (h: ListNode<T>)
      requires Valid()
      modifies this
      ensures Valid() && fresh(h) && h.headFlag && h !in old(lists)
      ensures nodes == old(nodes) + {h} && lists == old(lists)[h := []] && owner == old(owner)
    {
      hide Layout, Linked, Nexts, Prevs;
      h := new ListNode<T>.Header();
      NodeAdded(nodes, Nexts(nodes), Prevs(nodes), lists, owner, h);
      LinksWith(nodes, h);
      nodes := nodes + {h};
      lists := lists[h := []];
    }

    /** round_list_node_init */
    method NewNode(item: T) returns (x: ListNode<T>)
      requires Valid()
      modifies this
      ensures Valid() && fresh(x) && !x.headFlag && x.item == item
      ensures nodes == old(nodes) + {x} && lists == old(lists) && owner == old(owner) && x !in owner
    {
      hide Layout, Linked, Nexts, Prevs;
      x := new ListNode<T>.Plain(item);
      NodeAdded(nodes, Nexts(nodes), Prevs(nodes), lists, owner, x);
      LinksWith(nodes, x);
      nodes := nodes + {x};
    }

    /** The relinking in round_list_remove. */
    method Unlink(x: ListNode<T>)
      requires x in nodes && Nexts(nodes)[x] in nodes && Prevs(nodes)[x] in nodes
      modifies nodes
      ensures Nexts(nodes) == old(Cut(Nexts(nodes), Prevs(nodes)[x], Nexts(nodes)[x], x))
      ensures Prevs(nodes) == old(Cut(Prevs(nodes), Nexts(nodes)[x], Prevs(nodes)[x], x))
    {
      x.prev.next := x.next;
      x.next.prev := x.prev;
      x.prev, x.next := x, x;
    }

    /** The relinking in round_list_insert, for a node x that points at itself. */
    method Link(p: ListNode<T>, x: ListNode<T>)
      requires x in nodes && p in nodes && Nexts(nodes)[p] in nodes
      requires Nexts(nodes)[x] == x && Prevs(nodes)[x] == x
      modifies nodes
      ensures Nexts(nodes) == old(Tie(Nexts(nodes), p, Nexts(nodes)[p], x))
      ensures Prevs(nodes) == old(Tie(Prevs(nodes), Nexts(nodes)[p], p, x))
    {
      x.prev := p;
      x.next := p.next;
      p.next.prev := x;
      p.next := x;
    }

    /** round_list_remove */
    method Remove(x: ListNode<T>)
      requires Valid() && x in nodes && !x.headFlag
      modifies this, nodes
      ensures Valid() && nodes == old(nodes) && owner == old(owner) - {x} && lists.Keys == old(lists.Keys)
      ensures Nexts(nodes)[x] == x && Prevs(nodes)[x] == x
      ensures lists == Removed(old(lists), x)
    {
      hide Layout, Linked, Nexts, Prevs;
      RemovedLinked(nodes, Nexts(nodes), Prevs(nodes), lists, owner, x);
      RemovedLayout(nodes, lists, owner, x);
      Unlink(x);
      lists := Removed(lists, x);
      owner := owner - {x};
    }

    /** round_list_insert. With p == x the node ends up unlinked (no list holds p when x is placed). */
    method Insert(p: ListNode<T>, x: ListNode<T>)
      requires Valid() && x in nodes && !x.headFlag && p in nodes
      requires p in lists || p in owner || p == x
      modifies this, nodes
      ensures Valid() && nodes == old(nodes) && lists.Keys == old(lists.Keys)
      ensures lists == Inserted(old(lists), p, x)
    {
      hide Layout, Linked, Removed, Nexts, Prevs, Tie, Home;
      Remove(x);
      ghost var nx, pv := Nexts(nodes), Prevs(nodes);
      if p != x {
        PlacedLinked(nodes, nx, pv, lists, owner, p, x);
        PlacedLayout(nodes, lists, owner, p, x);
      } else {
        AlonePlaced(nodes, nx, pv, lists, owner, x);
      }
      Link(p, x);
      lists := PlacedAll(lists, p, x);
      owner := if p != x then owner[x := Home(owner, p)] else owner;
    }

    /** round_list_addfirst */
    method AddFirst(list: ListNode<T>, x: ListNode<T>)
      requires Valid() && list in lists && x in nodes && !x.headFlag
      modifies this, nodes
      ensures Valid() && nodes == old(nodes) && lists.Keys == old(lists.Keys)
      ensures lists == Removed(old(lists), x)[list := [x] + Without(old(lists)[list], x)]
    {
      InsertedInto(nodes, lists, owner, list, list, x);
      Insert(list, x);
    }

    /** round_list_addlast. Adding the node that is already last takes it out. */
    method AddLast(list: ListNode<T>, x: ListNode<T>)
      requires Valid() && list in lists && x in nodes && !x.headFlag
      modifies this, nodes
      ensures Valid() && nodes == old(nodes) && lists.Keys == old(lists.Keys)
      ensures var s := old(lists)[list];
              var rest := Without(s, x);
              lists == Removed(old(lists), x)[list := if s != [] && s[|s| - 1] == x then rest else rest + [x]]
      ensures old(x !in owner) ==> lists == old(lists)[list := old(lists)[list] + [x]]
    {
      hide Layout, Linked, Removed, Inserted, Without;
      if x !in owner {
        RemovedFree(nodes, lists, owner, x);
        FreeElsewhere(list, x);
      }
      HeaderLinks(list);
      ghost var s := lists[list];
      if s != [] {
        Listed(list, |s| - 1);
      }
      InsertedLast(nodes, lists, owner, list, x);
      Insert(list.prev, x);
    }

    /** round_list_size */
    method Size(list: ListNode<T>) returns (n: nat)
      requires Valid() && list in lists
      ensures n == |lists[list]|
    {
      ghost var s := lists[list];
      n := 0;
      HeaderLinks(list);
      var node := list.Next();
      while node != null
        invariant n <= |s| && node == if n < |s| then s[n] else null
        decreases |s| - n
      {
        ListLinks(list, n);
        n := n + 1;
        node := node.Next();
      }
    }

    /** round_list_get */
    method Get(list: ListNode<T>, index: nat) returns (node: ListNode?<T>)
      requires Valid() && list in lists
      ensures node == if index < |lists[list]| then lists[list][index] else null
    {
      ghost var s := lists[list];
      HeaderLinks(list);
      node := list.Next();
      var n := 0;
      while n < index
        invariant n <= index && (node == null ==> |s| <= n) && (node != null ==> n < |s| && node == s[n])
      {
        if node == null {
          break;
        }
        ListLinks(list, n);
        node := node.Next();
        n := n + 1;
      }
    }

    /** round_list_clear: unlinks (and releases) the first node until there is none. */
    method Clear(list: ListNode<T>)
      requires Valid() && list in lists
      modifies this, nodes
      ensures Valid() && nodes == old(nodes)
      ensures lists == old(lists)[list := []]
    {
      hide Layout, Linked, Removed;
      ghost var s, k := lists[list], 0;
      HeaderLinks(list);
      var node := list.Next();
      while node != null
        invariant Valid() && nodes == old(nodes) && k <= |s|
        invariant lists == old(lists)[list := s[k..]]
        invariant node == if k < |s| then s[k] else null
        decreases |s| - k
      {
        ghost var t := lists[list];
        assert t == s[k..] && t[..0] + t[1..] == s[k + 1..];
        RemovedFrom(nodes, lists, owner, list, 0);
        Listed(list, 0);
        Remove(node);
        k := k + 1;
        HeaderLinks(list);
        node := list.Next();
      }
    }

    /** What a header's links mean in terms of its list. */
    lemma HeaderLinks(h: ListNode<T>)
      requires Valid() && h in lists
      ensures h in nodes && h.headFlag && h !in lists[h]
      ensures h.Next() == if lists[h] == [] then null else lists[h][0]
      ensures h.Prev() == if lists[h] == [] then null else lists[h][|lists[h]| - 1]
      ensures h.next == if lists[h] == [] then h else lists[h][0]
      ensures h.prev == if lists[h] == [] then h else lists[h][|lists[h]| - 1]
    {
    }

    /** What the links of the k-th node mean in terms of its list. */
    lemma ListLinks(h: ListNode<T>, k: nat)
      requires Valid() && h in lists && k < |lists[h]|
      ensures var s := lists[h];
              && s[k] in nodes && !s[k].headFlag && s[k] in owner && owner[s[k]] == h
              && s[k].next in nodes && s[k].next == (if k + 1 < |s| then s[k + 1] else h)
              && s[k].prev in nodes && s[k].prev == (if k == 0 then h else s[k - 1])
              && s[k].Next() == (if k + 1 < |s| then s[k + 1] else null)
              && s[k].Prev() == (if k == 0 then null else s[k - 1])
    {
      var s := lists[h];
      assert At(k);
      assert h.headFlag;
      Listed(h, k);
      assert Nexts(nodes)[s[k]] == s[k].next && Prevs(nodes)[s[k]] == s[k].prev;
      if k > 0 {
        Listed(h, k - 1);
      }
      if k + 1 < |s| {
        Listed(h, k + 1);
      }
    }

    /** The k-th node of a list exists and is a plain node owned by that list. */
    lemma Listed(h: ListNode<T>, k: nat)
      requires Valid() && h in lists && k < |lists[h]|
      ensures lists[h][k] in nodes && !lists[h][k].headFlag
      ensures lists[h][k] in owner && owner[lists[h][k]] == h
    {
    }

    /** The nodes without owner are those that are in no list. */
    lemma FreeIffUnlisted(x: ListNode<T>)
      requires Valid()
      ensures x !in owner <==> forall h :: h in lists ==> x !in lists[h]
    {
    }

    lemma FreeUnaffected(x: ListNode<T>)
      requires Valid() && x !in owner
      ensures Removed(lists, x) == lists
    {
    }

    /** A node without owner is in no list. */
    lemma FreeElsewhere(h: ListNode<T>, x: ListNode<T>)
      requires Valid() && h in lists && x !in owner
      ensures x !in lists[h] && Without(lists[h], x) == lists[h]
    {
    }

    lemma NoDuplicates(h: ListNode<T>)
      requires Valid() && h in lists
      ensures NoDup(lists[h])
    {
    }

    /** Circular steps skip the header: they are steps modulo the size of the list. */
    lemma CircularLinks(h: ListNode<T>, k: nat)
      requires Valid() && h in lists && k < |lists[h]|
      ensures var s := lists[h];
              && s[k].NextCircular() == s[(k + 1) % |s|]
              && s[k].PrevCircular() == s[(k - 1) % |s|]
    {
      hide Layout, Linked;
      HeaderLinks(h);
      ListLinks(h, k);
      StepsModulo(k, |lists[h]|);
    }
  }
}
