/** The mesh and torus networks of Mesh.py and Torus.py: which routers are linked,
    and how far apart they are. */
module Topology {
  import opened Basics
  import opened Alignment

  /** The router in a row and a column: routers[col + row * num_columns]. */
  datatype Router = Router(row: nat, col: nat)

  /** A bidirectional link. */
  datatype Link = Link(id: nat, a: Router, b: Router, weight: nat)

  // -------------------------------------------------------------------- the links

  /** What follows position `i` in a row or column of `n`: with `wrap` the first one
      follows the last, and without it nothing does. */
  predicate HasNext(wrap: bool, n: nat, i: nat) {
    i < n && (wrap || i + 1 < n)
  }

  function Next(n: nat, i: nat): nat {
    if i + 1 < n then i + 1 else 0
  }

  function RowEdge(wrap: bool, cols: nat, r: nat, c: nat): (Router, Router) {
    if wrap then (Router(r, Next(cols, c)), Router(r, c)) else (Router(r, c), Router(r, Next(cols, c)))
  }

  function ColEdge(rows: nat, c: nat, r: nat): (Router, Router) {
    (Router(r, c), Router(Next(rows, r), c))
  }

  /** The links along the rows, up to row `r` and column `c`. */
  function RowLinks(wrap: bool, cols: nat, r: nat, c: nat, first: nat): seq<Link>
    decreases r, c
  {
    if c > 0 then
      var before := RowLinks(wrap, cols, r, c - 1, first);
      var e := RowEdge(wrap, cols, r, c - 1);
      if HasNext(wrap, cols, c - 1) then before + [Link(first + |before|, e.0, e.1, 1)] else before
    else if r > 0 then RowLinks(wrap, cols, r - 1, cols, first)
    else []
  }

  /** The links along the columns, up to column `c` and row `r`. */
  function ColLinks(wrap: bool, rows: nat, c: nat, r: nat, first: nat): seq<Link>
    decreases c, r
  {
    if r > 0 then
      var before := ColLinks(wrap, rows, c, r - 1, first);
      var e := ColEdge(rows, c, r - 1);
      if HasNext(wrap, rows, r - 1) then before + [Link(first + |before|, e.0, e.1, 2)] else before
    else if c > 0 then ColLinks(wrap, rows, c - 1, rows, first)
    else []
  }

  /** All links of a network, with numbers from `first` on. */
  function Links(wrap: bool, rows: nat, cols: nat, first: nat): seq<Link> {
    var east := RowLinks(wrap, cols, rows, 0, first);
    east + ColLinks(wrap, rows, cols, 0, first + |east|)
  }

  /** The mesh loops of Mesh.py. */
  method MeshLinks(rows: nat, cols: nat, first: nat) returns (links: seq<Link>)
    ensures links == Links(false, rows, cols, first)
  {
    var count := first;
    links := [];
    for row := 0 to rows
      invariant links == RowLinks(false, cols, row, 0, first) && count == first + |links|
    {
      for col := 0 to cols
        invariant links == RowLinks(false, cols, row, col, first) && count == first + |links|
      {
        if col + 1 < cols {
          links := links + [Link(count, Router(row, col), Router(row, col + 1), 1)];
          count := count + 1;
        }
      }
    }
    ghost var east := links;
    for col := 0 to cols
      invariant links == east + ColLinks(false, rows, col, 0, first + |east|) && count == first + |links|
    {
      for row := 0 to rows
        invariant links == east + ColLinks(false, rows, col, row, first + |east|) && count == first + |links|
      {
        if row + 1 < rows {
          links := links + [Link(count, Router(row, col), Router(row + 1, col), 2)];
          count := count + 1;
        }
      }
    }
  }

  /** The torus loops of Torus.py. */
  method TorusLinks(rows: nat, cols: nat, first: nat) returns (links: seq<Link>)
    ensures links == Links(true, rows, cols, first)
  {
    var count := first;
    links := [];
    for row := 0 to rows
      invariant links == RowLinks(true, cols, row, 0, first) && count == first + |links|
    {
      for col := 0 to cols
        invariant links == RowLinks(true, cols, row, col, first) && count == first + |links|
      {
        var east := if col + 1 < cols then Router(row, col + 1) else Router(row, 0);
        links := links + [Link(count, east, Router(row, col), 1)];
        count := count + 1;
      }
    }
    ghost var east := links;
    for col := 0 to cols
      invariant links == east + ColLinks(true, rows, col, 0, first + |east|) && count == first + |links|
    {
      for row := 0 to rows
        invariant links == east + ColLinks(true, rows, col, row, first + |east|) && count == first + |links|
      {
        var south := if row + 1 < rows then Router(row + 1, col) else Router(0, col);
        links := links + [Link(count, Router(row, col), south, 2)];
        count := count + 1;
      }
    }
  }

  // ------------------------------------------------------------- numbers and edges

  ghost predicate NumberedFrom(links: seq<Link>, first: nat)
  {
    forall k :: 0 <= k < |links| ==> links[k].id == first + k
  }

  lemma {:induction false} RowLinksNumbered(wrap: bool, cols: nat, r: nat, c: nat, first: nat)
    ensures NumberedFrom(RowLinks(wrap, cols, r, c, first), first)
    decreases r, c
  {
    if c > 0 {
      RowLinksNumbered(wrap, cols, r, c - 1, first);
    } else if r > 0 {
      RowLinksNumbered(wrap, cols, r - 1, cols, first);
    }
  }

  lemma {:induction false} ColLinksNumbered(wrap: bool, rows: nat, c: nat, r: nat, first: nat)
    ensures NumberedFrom(ColLinks(wrap, rows, c, r, first), first)
    decreases c, r
  {
    if r > 0 {
      ColLinksNumbered(wrap, rows, c, r - 1, first);
    } else if c > 0 {
      ColLinksNumbered(wrap, rows, c - 1, rows, first);
    }
  }

  /** Links are numbered consecutively, so no two have the same number. */
  lemma LinksNumbered(wrap: bool, rows: nat, cols: nat, first: nat)
    ensures NumberedFrom(Links(wrap, rows, cols, first), first)
  {
    var east := RowLinks(wrap, cols, rows, 0, first);
    RowLinksNumbered(wrap, cols, rows, 0, first);
    ColLinksNumbered(wrap, rows, cols, 0, first + |east|);
  }

  lemma {:induction false} RowLinksWeigh(wrap: bool, cols: nat, r: nat, c: nat, first: nat)
    ensures forall k :: 0 <= k < |RowLinks(wrap, cols, r, c, first)| ==>
              var l := RowLinks(wrap, cols, r, c, first)[k];
              l.weight == 1 && l.a.row == l.b.row
    decreases r, c
  {
    if c > 0 {
      RowLinksWeigh(wrap, cols, r, c - 1, first);
    } else if r > 0 {
      RowLinksWeigh(wrap, cols, r - 1, cols, first);
    }
  }

  lemma {:induction false} ColLinksWeigh(wrap: bool, rows: nat, c: nat, r: nat, first: nat)
    ensures forall k :: 0 <= k < |ColLinks(wrap, rows, c, r, first)| ==>
              var l := ColLinks(wrap, rows, c, r, first)[k];
              l.weight == 2 && l.a.col == l.b.col
    decreases c, r
  {
    if r > 0 {
      ColLinksWeigh(wrap, rows, c, r - 1, first);
    } else if c > 0 {
      ColLinksWeigh(wrap, rows, c - 1, rows, first);
    }
  }

  /** A link between two routers weighs 1 exactly if they are in one row, and 2 otherwise,
      so that rows are preferred to columns. */
  lemma LinksWeigh(wrap: bool, rows: nat, cols: nat, first: nat)
    ensures forall k :: 0 <= k < |Links(wrap, rows, cols, first)| ==>
              var l := Links(wrap, rows, cols, first)[k];
              && ((l.weight == 1 && l.a.row == l.b.row) || (l.weight == 2 && l.a.col == l.b.col))
              && (l.a != l.b ==> l.weight == if l.a.row == l.b.row then 1 else 2)
  {
    var east := RowLinks(wrap, cols, rows, 0, first);
    RowLinksWeigh(wrap, cols, rows, 0, first);
    ColLinksWeigh(wrap, rows, cols, 0, first + |east|);
  }

  /** How many links a row or a column of `n` has. */
  function Width(wrap: bool, n: nat): nat {
    if wrap || n == 0 then n else n - 1
  }

  lemma {:induction false} RowLinksCount(wrap: bool, cols: nat, r: nat, c: nat, first: nat)
    requires c <= cols
    ensures |RowLinks(wrap, cols, r, c, first)|
            == Times(r, Width(wrap, cols)) + if c < Width(wrap, cols) || c == 0 then c else Width(wrap, cols)
    decreases r, c
  {
    if c > 0 {
      RowLinksCount(wrap, cols, r, c - 1, first);
    } else if r > 0 {
      RowLinksCount(wrap, cols, r - 1, cols, first);
    }
  }

  lemma {:induction false} RowLinksExtend(wrap: bool, cols: nat, r: nat, c: nat, r': nat, c': nat, first: nat)
    requires c <= cols && c' <= cols && (r < r' || (r == r' && c <= c'))
    ensures RowLinks(wrap, cols, r, c, first) <= RowLinks(wrap, cols, r', c', first)
    decreases r', c'
  {
    if r == r' && c == c' {
    } else if c' > 0 {
      RowLinksExtend(wrap, cols, r, c, r', c' - 1, first);
    } else {
      RowLinksExtend(wrap, cols, r, c, r' - 1, cols, first);
    }
  }

  /** The link from column `c` of row `r` on has the number of the links before it, row by
      row: to the east, and with wrap-around from the last column to the first. */
  lemma RowLinkAt(wrap: bool, rows: nat, cols: nat, r: nat, c: nat, first: nat)
    requires r < rows && c < Width(wrap, cols)
    ensures var k := Times(r, Width(wrap, cols)) + c;
            var east := if c + 1 < cols then Router(r, c + 1) else Router(r, 0);
            && k < |Links(wrap, rows, cols, first)|
            && Links(wrap, rows, cols, first)[k]
               == if wrap then Link(first + k, east, Router(r, c), 1) else Link(first + k, Router(r, c), east, 1)
  {
    RowLinksCount(wrap, cols, r, c, first);
    RowLinksExtend(wrap, cols, r, c + 1, rows, 0, first);
    assert RowLinks(wrap, cols, r, c + 1, first) <= Links(wrap, rows, cols, first);
  }

  lemma {:induction false} ColLinksCount(wrap: bool, rows: nat, c: nat, r: nat, first: nat)
    requires r <= rows
    ensures |ColLinks(wrap, rows, c, r, first)|
            == Times(c, Width(wrap, rows)) + if r < Width(wrap, rows) || r == 0 then r else Width(wrap, rows)
    decreases c, r
  {
    if r > 0 {
      ColLinksCount(wrap, rows, c, r - 1, first);
    } else if c > 0 {
      ColLinksCount(wrap, rows, c - 1, rows, first);
    }
  }

  lemma {:induction false} ColLinksExtend(wrap: bool, rows: nat, c: nat, r: nat, c': nat, r': nat, first: nat)
    requires r <= rows && r' <= rows && (c < c' || (c == c' && r <= r'))
    ensures ColLinks(wrap, rows, c, r, first) <= ColLinks(wrap, rows, c', r', first)
    decreases c', r'
  {
    if c == c' && r == r' {
    } else if r' > 0 {
      ColLinksExtend(wrap, rows, c, r, c', r' - 1, first);
    } else {
      ColLinksExtend(wrap, rows, c, r, c' - 1, rows, first);
    }
  }

  /** The links along the columns follow, column by column and to the south. */
  lemma ColLinkAt(wrap: bool, rows: nat, cols: nat, c: nat, r: nat, first: nat)
    requires c < cols && r < Width(wrap, rows)
    ensures var k := Times(rows, Width(wrap, cols)) + Times(c, Width(wrap, rows)) + r;
            var south := if r + 1 < rows then Router(r + 1, c) else Router(0, c);
            && k < |Links(wrap, rows, cols, first)|
            && Links(wrap, rows, cols, first)[k] == Link(first + k, Router(r, c), south, 2)
  {
    var east := RowLinks(wrap, cols, rows, 0, first);
    RowLinksCount(wrap, cols, rows, 0, first);
    ColLinkAmong(wrap, rows, cols, c, r, first + |east|);
    BehindRows(wrap, rows, cols, first, Times(c, Width(wrap, rows)) + r);
  }

  lemma BehindRows(wrap: bool, rows: nat, cols: nat, first: nat, k: nat)
    requires k < |ColLinks(wrap, rows, cols, 0, first + |RowLinks(wrap, cols, rows, 0, first)|)|
    ensures var east := RowLinks(wrap, cols, rows, 0, first);
            && |east| + k < |Links(wrap, rows, cols, first)|
            && Links(wrap, rows, cols, first)[|east| + k] == ColLinks(wrap, rows, cols, 0, first + |east|)[k]
  {
  }

  lemma ColLinkAmong(wrap: bool, rows: nat, cols: nat, c: nat, r: nat, first: nat)
    requires c < cols && r < Width(wrap, rows)
    ensures var k := Times(c, Width(wrap, rows)) + r;
            var south := if r + 1 < rows then Router(r + 1, c) else Router(0, c);
            && k < |ColLinks(wrap, rows, cols, 0, first)|
            && ColLinks(wrap, rows, cols, 0, first)[k] == Link(first + k, Router(r, c), south, 2)
  {
    ColLinksCount(wrap, rows, c, r, first);
    ColLinksExtend(wrap, rows, c, r + 1, cols, 0, first);
  }

  ghost predicate HasEdge(links: seq<Link>, a: Router, b: Router)
  {
    exists k :: 0 <= k < |links| && links[k].a == a && links[k].b == b
  }

  lemma HasEdgeOfConcat(l: seq<Link>, m: seq<Link>, a: Router, b: Router)
    ensures HasEdge(l + m, a, b) <==> HasEdge(l, a, b) || HasEdge(m, a, b)
  {
    if HasEdge(l + m, a, b) {
      var k :| 0 <= k < |l + m| && (l + m)[k].a == a && (l + m)[k].b == b;
      if k < |l| {
        assert l[k].a == a;
      } else {
        assert m[k - |l|].a == a;
      }
    }
    if HasEdge(l, a, b) {
      var k :| 0 <= k < |l| && l[k].a == a && l[k].b == b;
      assert (l + m)[k].a == a;
    }
    if HasEdge(m, a, b) {
      var k :| 0 <= k < |m| && m[k].a == a && m[k].b == b;
      assert (l + m)[|l| + k].a == a;
    }
  }

  /** Between `a` and `b` lies an edge of a row that the loop has passed. */
  ghost predicate PassedRow(wrap: bool, cols: nat, r: nat, c: nat, a: Router, b: Router)
  {
    exists i, j :: 0 <= i && 0 <= j && (i < r || (i == r && j < c)) && HasNext(wrap, cols, j)
                   && (a, b) == RowEdge(wrap, cols, i, j)
  }

  ghost predicate PassedCol(wrap: bool, rows: nat, c: nat, r: nat, a: Router, b: Router)
  {
    exists i, j :: 0 <= i && 0 <= j && (j < c || (j == c && i < r)) && HasNext(wrap, rows, i)
                   && (a, b) == ColEdge(rows, j, i)
  }

  lemma {:induction false} RowLinksHave(wrap: bool, cols: nat, r: nat, c: nat, first: nat, a: Router, b: Router)
    requires c <= cols
    ensures HasEdge(RowLinks(wrap, cols, r, c, first), a, b) <==> PassedRow(wrap, cols, r, c, a, b)
    decreases r, c
  {
    if c > 0 {
      RowLinksHave(wrap, cols, r, c - 1, first, a, b);
      var before := RowLinks(wrap, cols, r, c - 1, first);
      var e := RowEdge(wrap, cols, r, c - 1);
      var l := Link(first + |before|, e.0, e.1, 1);
      HasEdgeOfConcat(before, [l], a, b);
      assert [l][0] == l;
    } else if r > 0 {
      RowLinksHave(wrap, cols, r - 1, cols, first, a, b);
    }
  }

  lemma {:induction false} ColLinksHave(wrap: bool, rows: nat, c: nat, r: nat, first: nat, a: Router, b: Router)
    requires r <= rows
    ensures HasEdge(ColLinks(wrap, rows, c, r, first), a, b) <==> PassedCol(wrap, rows, c, r, a, b)
    decreases c, r
  {
    if r > 0 {
      ColLinksHave(wrap, rows, c, r - 1, first, a, b);
      var before := ColLinks(wrap, rows, c, r - 1, first);
      var e := ColEdge(rows, c, r - 1);
      var l := Link(first + |before|, e.0, e.1, 2);
      HasEdgeOfConcat(before, [l], a, b);
      assert [l][0] == l;
    } else if c > 0 {
      ColLinksHave(wrap, rows, c - 1, rows, first, a, b);
    }
  }

  predicate InGrid(rows: nat, cols: nat, x: Router) {
    x.row < rows && x.col < cols
  }

  /** Neighbours in a row or column of `n`. */
  predicate Beside(wrap: bool, n: nat, i: nat, j: nat) {
    (HasNext(wrap, n, i) && j == Next(n, i)) || (HasNext(wrap, n, j) && i == Next(n, j))
  }

  predicate Adjacent(wrap: bool, rows: nat, cols: nat, x: Router, y: Router) {
    && InGrid(rows, cols, x)
    && ((x.row == y.row && Beside(wrap, cols, x.col, y.col)) || (x.col == y.col && Beside(wrap, rows, x.row, y.row)))
  }

  ghost predicate Linked(links: seq<Link>, x: Router, y: Router)
  {
    HasEdge(links, x, y) || HasEdge(links, y, x)
  }

  lemma RowEdges(wrap: bool, rows: nat, cols: nat, x: Router, y: Router)
    ensures PassedRow(wrap, cols, rows, 0, x, y) || PassedRow(wrap, cols, rows, 0, y, x) <==>
              x.row == y.row && x.row < rows && Beside(wrap, cols, x.col, y.col)
  {
    if x.row == y.row && x.row < rows {
      if HasNext(wrap, cols, x.col) && y.col == Next(cols, x.col) {
        var e := RowEdge(wrap, cols, x.row, x.col);
        assert e == (x, y) || e == (y, x);
      }
      if HasNext(wrap, cols, y.col) && x.col == Next(cols, y.col) {
        var e := RowEdge(wrap, cols, x.row, y.col);
        assert e == (x, y) || e == (y, x);
      }
    }
  }

  lemma ColEdges(wrap: bool, rows: nat, cols: nat, x: Router, y: Router)
    ensures PassedCol(wrap, rows, cols, 0, x, y) || PassedCol(wrap, rows, cols, 0, y, x) <==>
              x.col == y.col && x.col < cols && Beside(wrap, rows, x.row, y.row)
  {
    if x.col == y.col && x.col < cols {
      if HasNext(wrap, rows, x.row) && y.row == Next(rows, x.row) {
        assert ColEdge(rows, x.col, x.row) == (x, y);
      }
      if HasNext(wrap, rows, y.row) && x.row == Next(rows, y.row) {
        assert ColEdge(rows, x.col, y.row) == (y, x);
      }
    }
  }

  /** The routers that are linked are exactly the neighbours in the grid. */
  lemma LinkedIffAdjacent(wrap: bool, rows: nat, cols: nat, first: nat, x: Router, y: Router)
    ensures Linked(Links(wrap, rows, cols, first), x, y) <==> Adjacent(wrap, rows, cols, x, y)
  {
    var east := RowLinks(wrap, cols, rows, 0, first);
    var south := ColLinks(wrap, rows, cols, 0, first + |east|);
    HasEdgeOfConcat(east, south, x, y);
    HasEdgeOfConcat(east, south, y, x);
    RowLinksHave(wrap, cols, rows, 0, first, x, y);
    RowLinksHave(wrap, cols, rows, 0, first, y, x);
    ColLinksHave(wrap, rows, cols, 0, first + |east|, x, y);
    ColLinksHave(wrap, rows, cols, 0, first + |east|, y, x);
    RowEdges(wrap, rows, cols, x, y);
    ColEdges(wrap, rows, cols, x, y);
  }

  // --------------------------------------------------------------------- distances

  /** The distance in a row or column of `n`: around the end, if that is shorter. */
  function LineDist(wrap: bool, n: nat, i: nat, j: nat): nat
    requires i < n && j < n
  {
    var d := if i < j then j - i else i - j;
    if wrap && n - d < d then n - d else d
  }

  function Dist(wrap: bool, rows: nat, cols: nat, x: Router, y: Router): nat
    requires InGrid(rows, cols, x) && InGrid(rows, cols, y)
  {
    LineDist(wrap, cols, x.col, y.col) + LineDist(wrap, rows, x.row, y.row)
  }

  /** A path: every router is linked to the next. */
  ghost predicate IsPath(links: seq<Link>, p: seq<Router>)
  {
    p != [] && (|p| == 1 || (Linked(links, p[0], p[1]) && IsPath(links, p[1..])))
  }

  lemma AdjacentInGrid(wrap: bool, rows: nat, cols: nat, x: Router, y: Router)
    requires Adjacent(wrap, rows, cols, x, y)
    ensures InGrid(rows, cols, y)
  {
  }

  /** One link changes the distance by one at most. */
  lemma LinkIsShort(wrap: bool, rows: nat, cols: nat, x: Router, y: Router, z: Router)
    requires Adjacent(wrap, rows, cols, x, y) && InGrid(rows, cols, y) && InGrid(rows, cols, z)
    ensures Dist(wrap, rows, cols, x, z) <= Dist(wrap, rows, cols, y, z) + 1
  {
  }

  /** So no path is shorter than the distance. */
  lemma {:induction false} PathsAreLong(wrap: bool, rows: nat, cols: nat, first: nat, p: seq<Router>)
    requires IsPath(Links(wrap, rows, cols, first), p)
    requires InGrid(rows, cols, p[0]) && InGrid(rows, cols, p[|p| - 1])
    ensures Dist(wrap, rows, cols, p[0], p[|p| - 1]) <= |p| - 1
    decreases |p|
  {
    if |p| > 1 {
      LinkedIffAdjacent(wrap, rows, cols, first, p[0], p[1]);
      AdjacentInGrid(wrap, rows, cols, p[0], p[1]);
      PathsAreLong(wrap, rows, cols, first, p[1..]);
      LinkIsShort(wrap, rows, cols, p[0], p[1], p[|p| - 1]);
    }
  }

  /** The neighbour of `i` on the way to `j`. */
  function Toward(wrap: bool, n: nat, i: nat, j: nat): (k: nat)
    requires i < n && j < n && i != j
    ensures k < n && Beside(wrap, n, i, k) && LineDist(wrap, n, k, j) + 1 == LineDist(wrap, n, i, j)
  {
    var forward := if i < j then j - i else j + n - i;
    if (if wrap then forward <= n - forward else i < j) then Next(n, i)
    else if i == 0 then n - 1
    else i - 1
  }

  /** The way along the row first, and then along the column. */
  function Route(wrap: bool, rows: nat, cols: nat, x: Router, y: Router): (p: seq<Router>)
    requires InGrid(rows, cols, x) && InGrid(rows, cols, y)
    ensures |p| == Dist(wrap, rows, cols, x, y) + 1 && p[0] == x && p[|p| - 1] == y
    decreases Dist(wrap, rows, cols, x, y)
  {
    if x.col != y.col then [x] + Route(wrap, rows, cols, x.(col := Toward(wrap, cols, x.col, y.col)), y)
    else if x.row != y.row then [x] + Route(wrap, rows, cols, x.(row := Toward(wrap, rows, x.row, y.row)), y)
    else [x]
  }

  lemma PathExtends(links: seq<Link>, x: Router, p: seq<Router>)
    requires IsPath(links, p) && Linked(links, x, p[0])
    ensures IsPath(links, [x] + p)
  {
    assert ([x] + p)[1..] == p;
  }

  /** It is a path, and no longer than the distance: every router reaches every other,
      and the hop count between them is the sum of the distances along row and column. */
  lemma {:induction false} RouteIsPath(wrap: bool, rows: nat, cols: nat, first: nat, x: Router, y: Router)
    requires InGrid(rows, cols, x) && InGrid(rows, cols, y)
    ensures IsPath(Links(wrap, rows, cols, first), Route(wrap, rows, cols, x, y))
    decreases Dist(wrap, rows, cols, x, y)
  {
    if x.col != y.col || x.row != y.row {
      var z := if x.col != y.col then x.(col := Toward(wrap, cols, x.col, y.col))
               else x.(row := Toward(wrap, rows, x.row, y.row));
      RouteIsPath(wrap, rows, cols, first, z, y);
      LinkedIffAdjacent(wrap, rows, cols, first, x, z);
      PathExtends(Links(wrap, rows, cols, first), x, Route(wrap, rows, cols, z, y));
    }
  }

  // ----------------------------------------------------------------- the controllers

  /** The number of a router. */
  function RouterId(cols: nat, x: Router): nat {
    x.col + x.row * cols
  }

  /** Rows and columns tell routers apart as well as their numbers do. */
  lemma RouterIds(rows: nat, cols: nat, x: Router, y: Router)
    requires InGrid(rows, cols, x) && InGrid(rows, cols, y)
    ensures RouterId(cols, x) == x.col + x.row * cols < rows * cols
    ensures RouterId(cols, x) == RouterId(cols, y) <==> x == y
  {
    MulStep(x.row, rows, cols);
    if x.row < y.row {
      MulStep(x.row, y.row, cols);
    } else if y.row < x.row {
      MulStep(y.row, x.row, cols);
    }
  }

  /** The routers of `n` controllers: in turn, and router 0 for those left over. */
  function RouterOf(n: nat, routers: nat, i: nat): nat
    requires routers > 0
  {
    if i < n - n % routers then i % routers else 0
  }

  /** The loops over the controllers. */
  method ExtLinks(n: nat, routers: nat) returns (links: seq<(nat, nat)>)
    requires routers > 0
    ensures |links| == n
    ensures forall i :: 0 <= i < n ==> links[i] == (i, RouterOf(n, routers, i))
    ensures forall i :: 0 <= i < n ==> links[i].1 == if i < n - n % routers then i % routers else 0
    ensures forall r :: 0 <= r < routers ==>
              LinksTo(links, r) == n / routers + if r == 0 then n % routers else 0
  {
    var remainder := n % routers;
    var count := 0;
    links := [];
    for i := 0 to n - remainder
      invariant count == i == |links|
      invariant forall k :: 0 <= k < i ==> links[k] == (k, RouterOf(n, routers, k))
    {
      links := links + [(count, i % routers)];
      count := count + 1;
    }
    for i := 0 to remainder
      invariant count == n - remainder + i == |links|
      invariant forall k :: 0 <= k < |links| ==> links[k] == (k, RouterOf(n, routers, k))
    {
      links := links + [(count, 0)];
      count := count + 1;
    }
    forall r | 0 <= r < routers
      ensures LinksTo(links, r) == n / routers + if r == 0 then n % routers else 0
    {
      AllSpread(links, n, routers, r);
    }
  }

  /** How many of the links lead to router `r`. */
  function LinksTo(links: seq<(nat, nat)>, r: nat): nat {
    if links == [] then 0
    else LinksTo(links[..|links| - 1], r) + if links[|links| - 1].1 == r then 1 else 0
  }

  /** How many of the first `k` controllers are connected to router `r` in turn. */
  function Connected(routers: nat, k: nat, r: nat): nat
    requires routers > 0
  {
    if k == 0 then 0 else Connected(routers, k - 1, r) + if (k - 1) % routers == r then 1 else 0
  }

  lemma {:induction false} ConnectedRound(routers: nat, q: nat, k: nat, r: nat)
    requires r < routers && k <= routers
    ensures Connected(routers, q * routers + k, r) == Connected(routers, q * routers, r) + if r < k then 1 else 0
  {
    if k > 0 {
      ConnectedRound(routers, q, k - 1, r);
      DivModUnique(q * routers + (k - 1), routers, q, k - 1);
    }
  }

  /** Every router has the same number of controllers, apart from those left over. */
  lemma {:induction false} EvenlySpread(routers: nat, q: nat, r: nat)
    requires r < routers
    ensures Connected(routers, q * routers, r) == q
  {
    if q > 0 {
      EvenlySpread(routers, q - 1, r);
      ConnectedRound(routers, q - 1, routers, r);
      assert q * routers == (q - 1) * routers + routers;
    }
  }

  ghost predicate AsRouted(links: seq<(nat, nat)>, n: nat, routers: nat)
    requires routers > 0
  {
    |links| == n && forall i :: 0 <= i < n ==> links[i] == (i, RouterOf(n, routers, i))
  }

  lemma WholeRounds(n: nat, routers: nat) returns (q: nat, m: nat)
    requires routers > 0
    ensures q == n / routers && m == q * routers == n - n % routers
  {
    q := n / routers;
    m := q * routers;
  }

  lemma {:induction false} FirstSpread(links: seq<(nat, nat)>, n: nat, routers: nat, m: nat, k: nat, r: nat)
    requires routers > 0 && AsRouted(links, n, routers) && k <= m == n - n % routers
    ensures LinksTo(links[..k], r) == Connected(routers, k, r)
  {
    if k > 0 {
      FirstSpread(links, n, routers, m, k - 1, r);
      assert links[..k][..k - 1] == links[..k - 1];
    }
  }

  lemma {:induction false} LastSpread(links: seq<(nat, nat)>, n: nat, routers: nat, m: nat, k: nat, r: nat)
    requires routers > 0 && AsRouted(links, n, routers) && n - n % routers == m <= k <= n
    ensures LinksTo(links[..k], r) == LinksTo(links[..m], r) + if r == 0 then k - m else 0
  {
    if k > m {
      LastSpread(links, n, routers, m, k - 1, r);
      assert links[..k][..k - 1] == links[..k - 1];
    }
  }

  /** Every router gets the same number of controllers, and router 0 those left over. */
  lemma AllSpread(links: seq<(nat, nat)>, n: nat, routers: nat, r: nat)
    requires r < routers && AsRouted(links, n, routers)
    ensures LinksTo(links, r) == n / routers + if r == 0 then n % routers else 0
  {
    var q, m := WholeRounds(n, routers);
    FirstSpread(links, n, routers, m, m, r);
    EvenlySpread(routers, q, r);
    LastSpread(links, n, routers, m, n, r);
    assert links[..n] == links;
  }

  // ------------------------------------------------------------------ whole networks

  datatype Network = Network(ext: seq<(nat, nat)>, links: seq<Link>)

  /** The numbers of all links, external ones first. */
  function LinkIds(net: Network): (ids: seq<nat>)
    ensures |ids| == |net.ext| + |net.links|
  {
    seq(|net.ext|, k requires 0 <= k < |net.ext| => net.ext[k].0) +
    seq(|net.links|, k requires 0 <= k < |net.links| => net.links[k].id)
  }

  /** The counter runs on from the external to the internal links: all numbers of a
      network are different. */
  lemma NetworkNumbered(net: Network, wrap: bool, rows: nat, cols: nat)
    requires forall i :: 0 <= i < |net.ext| ==> net.ext[i].0 == i
    requires net.links == Links(wrap, rows, cols, |net.ext|)
    ensures forall k :: 0 <= k < |LinkIds(net)| ==> LinkIds(net)[k] == k
    ensures forall j, k :: 0 <= j < k < |LinkIds(net)| ==> LinkIds(net)[j] != LinkIds(net)[k]
  {
    LinksNumbered(wrap, rows, cols, |net.ext|);
  }

  /** makeTopology of Mesh.py, or with `wrap` of Torus.py, for `n` controllers: a network
      exactly if the routers can be put in that many rows. */
  method MakeTopology(wrap: bool, n: nat, routers: nat, rows: nat) returns (r: Option<Network>)
    ensures r.Some? <==> 0 < rows && 0 < routers && exists cols :: 0 < cols && rows * cols == routers
    ensures r.Some? ==>
              && AsRouted(r.value.ext, n, routers)
              && rows * (routers / rows) == routers
              && r.value.links == Links(wrap, rows, routers / rows, n)
    ensures r.Some? ==>
              forall j, k :: 0 <= j < k < |LinkIds(r.value)| ==> LinkIds(r.value)[j] != LinkIds(r.value)[k]
  {
    if routers == 0 || rows == 0 {
      return None;
    }
    var cols := routers / rows;
    ColumnsFound(rows, routers);
    if rows > routers || cols * rows != routers {
      return None;
    }
    var ext := ExtLinks(n, routers);
    var links;
    if wrap {
      links := TorusLinks(rows, cols, n);
    } else {
      links := MeshLinks(rows, cols, n);
    }
    NetworkNumbered(Network(ext, links), wrap, rows, cols);
    return Some(Network(ext, links));
  }

  lemma ColumnsFound(rows: nat, routers: nat)
    requires 0 < rows && 0 < routers
    ensures (exists cols :: 0 < cols && rows * cols == routers) <==>
              rows <= routers && routers / rows * rows == routers
  {
    if rows <= routers && routers / rows * rows == routers {
      var cols := routers / rows;
      assert rows * cols == routers && 0 < cols;
    }
    forall cols | 0 < cols && rows * cols == routers
      ensures rows <= routers && routers / rows == cols
    {
      MulStep(0, cols, rows);
      assert routers == cols * rows + 0;
      DivModUnique(routers, rows, cols, 0);
    }
  }
}
