/** The street-network converter: the `LINESTRING` parser and the rules that
    turn street rows into an edge table with dense vertex ids. Rows are taken
    as already read, with the length cell reduced to its rounded value. */
module NycConverter {
  import opened Options
  import opened Text
  import opened Graphs
  import Loaders

  const Prefix: string := "LINESTRING ("
  const Close: string := ")"
  const Sep: string := ", "

  /** The first and last coordinate texts of a street segment. */
  datatype Ends = Ends(start: string, end: string)

  /** `parse_linestring`: `None` for an empty geometry or fewer than two
      pieces, otherwise the stripped first and last pieces. */
  function ParseLinestring(geometry: string): Option<Ends>
  {
    if geometry == [] then None
    else
      var pairs := Split(RemoveAll(RemoveAll(geometry, Prefix), Close), Sep);
      if |pairs| < 2 then None
      else Some(Ends(Strip(pairs[0]), Strip(pairs[|pairs| - 1])))
  }

  /** The characters of a coordinate pair such as `-73.98 40.75`. */
  predicate CoordChar(c: char)
  {
    '0' <= c <= '9' || c == '-' || c == '.' || c == ' '
  }

  predicate Coordinate(c: string)
  {
    && |c| > 0 && c[0] != ' ' && c[|c| - 1] != ' '
    && forall k :: 0 <= k < |c| ==> CoordChar(c[k])
  }

  /** The geometry text the data set stores for a polyline. */
  function Format(coords: seq<string>): string
  {
    Prefix + Join(coords, Sep) + Close
  }

  /** A character that no coordinate uses, and that is not in the
      separator, is not in the joined coordinates. */
  lemma CoordinatesAvoid(coords: seq<string>, x: char)
    requires forall k :: 0 <= k < |coords| ==> Coordinate(coords[k])
    requires !CoordChar(x) && x != ','
    ensures x !in Join(coords, Sep)
  {
    forall k | 0 <= k < |coords|
      ensures x !in coords[k]
    {
      assert Coordinate(coords[k]);
    }
    JoinAvoids(coords, Sep, x);
  }

  /** Removing the prefix and the closing parenthesis from a stored polyline
      leaves the joined coordinates, when they hold neither an `L` nor a
      `)`. */
  lemma FormatBody(coords: seq<string>)
    requires 'L' !in Join(coords, Sep) && ')' !in Join(coords, Sep)
    ensures RemoveAll(RemoveAll(Format(coords), Prefix), Close) == Join(coords, Sep)
  {
    assert Prefix[0] == 'L' && Close[0] == ')';
    Unwrap(Prefix, Join(coords, Sep), Close);
  }

  /** Coordinates hold no marker character of the polyline text. */
  lemma CoordinatesAvoidMarkers(coords: seq<string>)
    requires forall k :: 0 <= k < |coords| ==> Coordinate(coords[k])
    ensures 'L' !in Join(coords, Sep) && ')' !in Join(coords, Sep)
  {
    CoordinatesAvoid(coords, 'L');
    CoordinatesAvoid(coords, ')');
  }

  /** Coordinates hold no comma, the separator's first character. */
  lemma CoordinatesNoComma(coords: seq<string>)
    requires forall k :: 0 <= k < |coords| ==> Coordinate(coords[k])
    ensures forall k :: 0 <= k < |coords| ==> ',' !in coords[k]
  {
    forall k | 0 <= k < |coords|
      ensures ',' !in coords[k]
    {
      assert Coordinate(coords[k]);
    }
  }

  /** The outer coordinates are already stripped. */
  lemma CoordinatesStripped(coords: seq<string>)
    requires |coords| >= 1 && forall k :: 0 <= k < |coords| ==> Coordinate(coords[k])
    ensures Strip(coords[0]) == coords[0] && Strip(coords[|coords| - 1]) == coords[|coords| - 1]
  {
    assert Coordinate(coords[0]) && Coordinate(coords[|coords| - 1]);
    StripKeeps(coords[0]);
    StripKeeps(coords[|coords| - 1]);
  }

  /** Splitting the unwrapped polyline text gives back the pieces. */
  lemma SplitFormat(coords: seq<string>)
    requires |coords| >= 1 && 'L' !in Join(coords, Sep) && ')' !in Join(coords, Sep)
    requires forall k :: 0 <= k < |coords| ==> ',' !in coords[k]
    ensures Split(RemoveAll(RemoveAll(Format(coords), Prefix), Close), Sep) == coords
  {
    FormatBody(coords);
    SplitJoin(coords, Sep);
  }

  /** The parser's answer once the pieces are known and stripped. */
  lemma ParseSplit(coords: seq<string>)
    requires |coords| >= 2 && Split(RemoveAll(RemoveAll(Format(coords), Prefix), Close), Sep) == coords
    requires Strip(coords[0]) == coords[0] && Strip(coords[|coords| - 1]) == coords[|coords| - 1]
    ensures ParseLinestring(Format(coords)) == Some(Ends(coords[0], coords[|coords| - 1]))
  {
  }

  /** Parsing a stored polyline of two or more coordinates gives back its
      first and last coordinate. */
  lemma ParseFormat(coords: seq<string>)
    requires |coords| >= 2 && forall k :: 0 <= k < |coords| ==> Coordinate(coords[k])
    ensures ParseLinestring(Format(coords)) == Some(Ends(coords[0], coords[|coords| - 1]))
  {
    CoordinatesAvoidMarkers(coords);
    CoordinatesNoComma(coords);
    CoordinatesStripped(coords);
    SplitFormat(coords);
    ParseSplit(coords);
  }

  /** A polyline with a single coordinate is rejected, and so is an empty
      geometry. */
  lemma ParseRejects(c: string)
    requires Coordinate(c)
    ensures ParseLinestring(Format([c])) == None
    ensures ParseLinestring([]) == None
  {
    var g := Format([c]);
    assert g == Prefix + (c + Close);
    assert g[..|Prefix|] == Prefix && g[|Prefix|..] == c + Close;
    assert 'L' !in c + Close && ')' !in c && ',' !in c by {
      assert forall k :: 0 <= k < |c| ==> CoordChar(c[k]);
    }
    RemoveAllAbsent(c + Close, Prefix);
    RemoveAllSuffix(c, Close);
    SplitPlain(c, Sep);
  }

  /** A parsed end neither starts nor ends with whitespace. */
  lemma ParseStripped(geometry: string)
    ensures ParseLinestring(geometry).Some? ==> var e := ParseLinestring(geometry).value;
      && (e.start != [] ==> !IsSpace(e.start[0]) && !IsSpace(e.start[|e.start| - 1]))
      && (e.end != [] ==> !IsSpace(e.end[0]) && !IsSpace(e.end[|e.end| - 1]))
  {
    if geometry != [] {
      var pairs := Split(RemoveAll(RemoveAll(geometry, Prefix), Close), Sep);
      if |pairs| >= 2 {
        StripSpec(pairs[0]);
        StripSpec(pairs[|pairs| - 1]);
      }
    }
  }

  /** One street row: its geometry text, its length as `round(length)` when
      the cell holds a positive number (and `None` otherwise), and its
      `oneway` text. */
  datatype Row = Row(geometry: string, length: Option<int>, oneway: string)

  /** One emitted edge row, with its `oneway` text. */
  datatype Link = Link(src: nat, dst: nat, w: int, oneway: string)

  /** The converter's state: the coordinate-to-id dictionary, the next free
      id and the edges so far. */
  datatype Conv = Conv(ids: map<string, nat>, next: nat, links: seq<Link>)

  /** `max(1, round(length))`. */
  function Clamp(rounded: int): (w: int)
    ensures w >= 1 && (rounded >= 1 ==> w == rounded)
  {
    if rounded < 1 then 1 else rounded
  }

  /** Looking a coordinate up, handing out the next id when it is new. */
  function Intern(c: Conv, coord: string): (r: Conv)
    ensures coord in r.ids && r.links == c.links
    ensures forall k :: k in c.ids ==> k in r.ids && r.ids[k] == c.ids[k]
  {
    if coord in c.ids then c else Conv(c.ids[coord := c.next], c.next + 1, c.links)
  }

  /** `oneway.lower() == 'false'` on the stripped text. */
  predicate TwoWay(oneway: string)
  {
    Lower(Strip(oneway)) == "false"
  }

  /** A row is turned into an edge: it has a geometry and a positive length,
      and both parsed ends are non-empty. */
  predicate Accepts(row: Row)
  {
    && row.geometry != [] && row.length.Some?
    && ParseLinestring(row.geometry).Some?
    && ParseLinestring(row.geometry).value.start != []
    && ParseLinestring(row.geometry).value.end != []
  }

  /** The edges one accepted row emits after `links`: the forward edge, and
      its reverse when the street is two-way and the budget has room. */
  function Emit(links: seq<Link>, u: nat, v: nat, w: int, oneway: string, numRows: nat): seq<Link>
  {
    var fwd := links + [Link(u, v, w, Strip(oneway))];
    if TwoWay(oneway) && |fwd| < numRows then fwd + [Link(v, u, w, Strip(oneway))] else fwd
  }

  /** One iteration of the row loop, once the budget check has passed. */
  function Feed(c: Conv, row: Row, numRows: nat): Conv
  {
    if !Accepts(row) then c
    else
      var ends := ParseLinestring(row.geometry).value;
      var c2 := Intern(Intern(c, ends.start), ends.end);
      Conv(c2.ids, c2.next, Emit(c2.links, c2.ids[ends.start], c2.ids[ends.end], Clamp(row.length.value), row.oneway, numRows))
  }

  /** The row loop: stop as soon as the budget is used up. */
  function ConvertFrom(c: Conv, rows: seq<Row>, numRows: nat): Conv
    decreases |rows|
  {
    if |rows| == 0 || |c.links| >= numRows then c
    else ConvertFrom(Feed(c, rows[0], numRows), rows[1..], numRows)
  }

  /** `rows[start_row:start_row + num_rows + 5000]`. */
  function Select(rows: seq<Row>, startRow: nat, numRows: nat): (r: seq<Row>)
    ensures |r| <= numRows + 5000
    ensures startRow >= |rows| ==> r == []
    ensures startRow < |rows| ==> |r| == (if startRow + numRows + 5000 < |rows| then numRows + 5000 else |rows| - startRow)
    ensures forall i :: 0 <= i < |r| ==> r[i] == rows[startRow + i]
  {
    var lo := if startRow < |rows| then startRow else |rows|;
    var hi := if startRow + numRows + 5000 < |rows| then startRow + numRows + 5000 else |rows|;
    rows[lo..hi]
  }

  /** `create_graph_dataset_from_nyc` without the file I/O. */
  function Convert(rows: seq<Row>, numRows: nat, startRow: nat): Conv
  {
    ConvertFrom(Conv(map[], 0, []), Select(rows, startRow, numRows), numRows)
  }

  /** The edge table the output file holds, as the loaders read it back. */
  function AsEdges(links: seq<Link>): (es: seq<Edge>)
    ensures |es| == |links|
    ensures forall i :: 0 <= i < |links| ==> es[i] == Edge(links[i].src, links[i].dst, links[i].w)
  {
    seq(|links|, i requires 0 <= i < |links| => Edge(links[i].src, links[i].dst, links[i].w))
  }

  /** Vertex `id` is an endpoint of some emitted edge. */
  ghost predicate Used(links: seq<Link>, id: int)
  {
    exists i :: 0 <= i < |links| && (links[i].src == id || links[i].dst == id)
  }

  /** The dictionary part of the invariant. */
  ghost predicate IdsGood(c: Conv)
  {
    && c.next == |c.ids|
    && (forall k :: k in c.ids ==> c.ids[k] < c.next)
    && (forall a, b :: a in c.ids && b in c.ids && a != b ==> c.ids[a] != c.ids[b])
  }

  /** The edge part of the invariant. */
  ghost predicate LinksGood(links: seq<Link>, next: nat)
  {
    && (forall i :: 0 <= i < |links| ==> links[i].src < next && links[i].dst < next && links[i].w >= 1)
    && (forall id :: 0 <= id < next ==> Used(links, id))
  }

  /** The converter's invariant: ids `0 .. next-1` go one-to-one to the
      coordinates seen, every one of them is used by an edge, edges name only
      those ids and weigh at least 1, and the budget holds. */
  ghost predicate Good(c: Conv, numRows: nat)
  {
    && IdsGood(c)
    && LinksGood(c.links, c.next)
    && |c.links| <= numRows
  }

  lemma InternGood(c: Conv, coord: string)
    requires IdsGood(c)
    ensures var r := Intern(c, coord);
      && IdsGood(r)
      && (coord !in c.ids ==> r.ids[coord] == c.next && r.next == c.next + 1)
      && (coord in c.ids ==> r == c)
  {
  }

  lemma EmitFacts(links: seq<Link>, u: nat, v: nat, w: int, oneway: string, numRows: nat)
    ensures var r := Emit(links, u, v, w, oneway, numRows);
      && |links| < |r| <= |links| + 2 && r[..|links|] == links
      && r[|links|] == Link(u, v, w, Strip(oneway))
      && (|r| == |links| + 2 <==> TwoWay(oneway) && |links| + 1 < numRows)
      && (|r| == |links| + 2 ==> r[|links| + 1] == Link(v, u, w, Strip(oneway)))
  {
    var r := Emit(links, u, v, w, oneway, numRows);
    assert r[..|links|] == links;
  }

  /** What one accepted row does: the dictionary gains exactly the row's two
      coordinates, the new ones getting the next ids in order of appearance
      (start, then end); one edge between the ids of the two ends is
      appended, weighing the clamped length; and its reverse follows exactly
      when the street is two-way and the budget has room. A row that is not
      accepted changes nothing. */
  lemma FeedRule(c: Conv, row: Row, numRows: nat)
    ensures !Accepts(row) ==> Feed(c, row, numRows) == c
    ensures Accepts(row) ==> var r := Feed(c, row, numRows); var ends := ParseLinestring(row.geometry).value;
      && ends.start in r.ids && ends.end in r.ids
      && (forall k :: k in c.ids ==> k in r.ids && r.ids[k] == c.ids[k])
      && r.ids.Keys == c.ids.Keys + {ends.start, ends.end}
      && (ends.start !in c.ids ==> r.ids[ends.start] == c.next)
      && (ends.end !in c.ids && ends.end != ends.start ==> r.ids[ends.end] == r.next - 1)
      && r.next == c.next + (if ends.start in c.ids then 0 else 1)
                          + (if ends.end in c.ids || ends.end == ends.start then 0 else 1)
      && |c.links| < |r.links| <= |c.links| + 2 && r.links[..|c.links|] == c.links
      && r.links[|c.links|] == Link(r.ids[ends.start], r.ids[ends.end], Clamp(row.length.value), Strip(row.oneway))
      && (|r.links| == |c.links| + 2 <==> TwoWay(row.oneway) && |c.links| + 1 < numRows)
      && (|r.links| == |c.links| + 2 ==> var f := r.links[|c.links|];
            r.links[|c.links| + 1] == Link(f.dst, f.src, f.w, f.oneway))
  {
    if Accepts(row) {
      var ends := ParseLinestring(row.geometry).value;
      var c1 := Intern(c, ends.start);
      var c2 := Intern(c1, ends.end);
      EmitFacts(c2.links, c2.ids[ends.start], c2.ids[ends.end], Clamp(row.length.value), row.oneway, numRows);
      if ends.start !in c.ids {
        assert c1.ids[ends.start] == c.next;
      }
    }
  }

  predicate IsEnd(u: int, v: int, id: int)
  {
    id == u || id == v
  }

  /** Emitting keeps the edge part when the ids handed out meanwhile are the
      ends of the new edge. */
  lemma EmitGood(links: seq<Link>, oldNext: nat, next: nat, u: nat, v: nat, w: int, oneway: string, numRows: nat)
    requires LinksGood(links, oldNext) && oldNext <= next && u < next && v < next && w >= 1
    requires forall id :: oldNext <= id < next ==> IsEnd(u, v, id)
    ensures LinksGood(Emit(links, u, v, w, oneway, numRows), next)
  {
    var r := Emit(links, u, v, w, oneway, numRows);
    var n := |links|;
    EmitFacts(links, u, v, w, oneway, numRows);
    forall i | 0 <= i < |r|
      ensures r[i].src < next && r[i].dst < next && r[i].w >= 1
    {
      if i < n {
        assert r[i] == r[..n][i] == links[i];
      }
    }
    forall id | 0 <= id < next
      ensures Used(r, id)
    {
      if id < oldNext {
        assert Used(links, id);
        var i :| 0 <= i < n && (links[i].src == id || links[i].dst == id);
        assert r[i] == r[..n][i] == links[i];
      } else {
        assert IsEnd(u, v, id);
        assert r[n].src == id || r[n].dst == id;
      }
    }
  }

  /** An accepted row keeps the invariant while the budget has room. */
  lemma FeedKeepsGood(c: Conv, row: Row, numRows: nat)
    requires Good(c, numRows) && |c.links| < numRows
    ensures Good(Feed(c, row, numRows), numRows)
  {
    if Accepts(row) {
      var ends := ParseLinestring(row.geometry).value;
      var c1 := Intern(c, ends.start);
      var c2 := Intern(c1, ends.end);
      InternGood(c, ends.start);
      InternGood(c1, ends.end);
      var u, v := c2.ids[ends.start], c2.ids[ends.end];
      forall id | c.next <= id < c2.next
        ensures IsEnd(u, v, id)
      {
      }
      EmitGood(c.links, c.next, c2.next, u, v, Clamp(row.length.value), row.oneway, numRows);
      EmitFacts(c.links, u, v, Clamp(row.length.value), row.oneway, numRows);
    }
  }

  lemma {:induction false} ConvertFromGood(c: Conv, rows: seq<Row>, numRows: nat)
    requires Good(c, numRows)
    ensures Good(ConvertFrom(c, rows, numRows), numRows)
    ensures forall k :: k in c.ids ==> k in ConvertFrom(c, rows, numRows).ids && ConvertFrom(c, rows, numRows).ids[k] == c.ids[k]
    decreases |rows|
  {
    if |rows| > 0 && |c.links| < numRows {
      FeedKeepsGood(c, rows[0], numRows);
      FeedRule(c, rows[0], numRows);
      ConvertFromGood(Feed(c, rows[0], numRows), rows[1..], numRows);
    }
  }

  /** What the invariant says about the emitted table. */
  lemma GoodTable(c: Conv, numRows: nat)
    requires Good(c, numRows)
    ensures var t := AsEdges(c.links);
      && EdgesWithin(t, c.next) && (forall e :: e in t ==> e.w >= 1)
      && Loaders.Endpoints(t) == Loaders.RangeSet(c.next)
  {
    var t := AsEdges(c.links);
    forall id | 0 <= id < c.next
      ensures id in Loaders.Endpoints(t)
    {
      assert Used(c.links, id);
      var i :| 0 <= i < |c.links| && (c.links[i].src == id || c.links[i].dst == id);
      assert t[i] in t;
    }
  }

  /** The emitted table is ready for both engines: at most `num_rows` edges,
      every weight at least 1, and vertex ids exactly `0 .. V-1` where `V` is
      the number of distinct coordinates, one id per coordinate; so the
      `max + 1` vertex rule and the distinct-endpoint rule both give `V`. */
  lemma ConvertedTable(rows: seq<Row>, numRows: nat, startRow: nat)
    ensures var c := Convert(rows, numRows, startRow); var t := AsEdges(c.links);
      && |t| <= numRows
      && EdgesWithin(t, c.next) && EdgesNonNegative(t) && (forall e :: e in t ==> e.w >= 1)
      && c.next == |c.ids|
      && (forall a, b :: a in c.ids && b in c.ids && a != b ==> c.ids[a] != c.ids[b])
      && Loaders.DistinctCount(t) == c.next && Loaders.VertexCount(t) == c.next
  {
    var c := Convert(rows, numRows, startRow);
    var t := AsEdges(c.links);
    ConvertFromGood(Conv(map[], 0, []), Select(rows, startRow, numRows), numRows);
    GoodTable(c, numRows);
    Loaders.RangeSetSize(c.next);
    assert Loaders.NonNegativeIds(t);
    Loaders.CountsAgreeIffDense(t);
    if c.next > 0 {
      assert c.next - 1 in Loaders.RangeSet(c.next);
    }
  }

  /** The body of the row loop after the budget check, as written: `continue`
      becomes an early return. */
  method ProcessRow(nodeMapping: map<string, nat>, nextNodeId: nat, links: seq<Link>, row: Row, numRows: nat)
    returns (nodeMapping': map<string, nat>, nextNodeId': nat, links': seq<Link>)
    ensures Conv(nodeMapping', nextNodeId', links') == Feed(Conv(nodeMapping, nextNodeId, links), row, numRows)
  {
    nodeMapping', nextNodeId', links' := nodeMapping, nextNodeId, links;
    if row.geometry == [] || row.length.None? {
      return;
    }
    var ends := ParseLinestring(row.geometry);
    if ends.None? || ends.value.start == [] || ends.value.end == [] {
      return;
    }
    var startCoord, endCoord := ends.value.start, ends.value.end;
    if startCoord !in nodeMapping' {
      nodeMapping' := nodeMapping'[startCoord := nextNodeId'];
      nextNodeId' := nextNodeId' + 1;
    }
    assert Conv(nodeMapping', nextNodeId', links) == Intern(Conv(nodeMapping, nextNodeId, links), startCoord);
    if endCoord !in nodeMapping' {
      nodeMapping' := nodeMapping'[endCoord := nextNodeId'];
      nextNodeId' := nextNodeId' + 1;
    }
    ghost var c2 := Intern(Intern(Conv(nodeMapping, nextNodeId, links), startCoord), endCoord);
    assert Conv(nodeMapping', nextNodeId', links) == c2;
    var source, target := nodeMapping'[startCoord], nodeMapping'[endCoord];
    var weight := row.length.value;
    if weight < 1 {
      weight := 1;
    }
    var oneway := Strip(row.oneway);
    links' := links' + [Link(source, target, weight, oneway)];
    var edgesCreated := |links'|;
    if Lower(oneway) == "false" {
      if edgesCreated < numRows {
        links' := links' + [Link(target, source, weight, oneway)];
      }
    }
    assert links' == Emit(links, source, target, Clamp(row.length.value), row.oneway, numRows);
  }

  /** The row loop as written, with its own edge counter and `break` once
      the budget is used up; it builds the same table and dictionary as
      `Convert`. */
  method CreateGraphDataset(rows: seq<Row>, numRows: nat, startRow: nat) returns (links: seq<Link>, nodeMapping: map<string, nat>)
    ensures links == Convert(rows, numRows, startRow).links && nodeMapping == Convert(rows, numRows, startRow).ids
    ensures |links| <= numRows
    ensures forall i :: 0 <= i < |links| ==> links[i].w >= 1 && links[i].src < |nodeMapping| && links[i].dst < |nodeMapping|
    ensures Loaders.VertexCount(AsEdges(links)) == |nodeMapping|
  {
    var edgesCreated := 0;
    nodeMapping := map[];
    var nextNodeId := 0;
    links := [];
    var selected := Select(rows, startRow, numRows);
    var i := 0;
    while i < |selected|
      invariant 0 <= i <= |selected| && edgesCreated == |links|
      invariant ConvertFrom(Conv(nodeMapping, nextNodeId, links), selected[i..], numRows) == Convert(rows, numRows, startRow)
      decreases |selected| - i
    {
      if edgesCreated >= numRows {
        break;
      }
      assert selected[i..][0] == selected[i] && selected[i..][1..] == selected[i + 1..];
      nodeMapping, nextNodeId, links := ProcessRow(nodeMapping, nextNodeId, links, selected[i], numRows);
      edgesCreated := |links|;
      i := i + 1;
    }
    ConvertFromGood(Conv(map[], 0, []), Select(rows, startRow, numRows), numRows);
    ConvertedTable(rows, numRows, startRow);
  }
}
