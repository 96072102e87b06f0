/** The minimum covering window search itself, on the table of nodes and the recency list. */
module MinCharWindow {
  import opened Machine
  import opened Sequences
  import opened Recency
  import opened RecencyList
  import opened WindowSearch

  const TABLE_SIZE := 256

  /** The table entries of the characters `r`, in order. */
  ghost function NodesOf(table: seq<Node>, r: string): (nodes: seq<Node>)
    requires |table| == TABLE_SIZE && AllAscii(r)
    ensures |nodes| == |r| && forall i :: 0 <= i < |r| ==> nodes[i] == table[r[i] as int]
  {
    seq(|r|, i requires 0 <= i < |r| => table[r[i] as int])
  }

  ghost predicate AllAscii(r: string) {
    forall i :: 0 <= i < |r| ==> r[i] as int < 128
  }

  lemma {:induction false} NodesOfWithout(table: seq<Node>, r: string, c: char)
    requires |table| == TABLE_SIZE && NoDuplicates(table) && AllAscii(r) && c as int < 128
    ensures AllAscii(Without(r, c))
    ensures NodesOf(table, Without(r, c)) == Without(NodesOf(table, r), table[c as int])
  {
    if r != [] {
      var nodes, rest := NodesOf(table, r), NodesOf(table, r[1..]);
      NodesOfWithout(table, r[1..], c);
      assert nodes[1..] == rest;
      if r[0] != c {
        assert nodes[0] != table[c as int];
        assert NodesOf(table, Without(r, c)) == [nodes[0]] + NodesOf(table, Without(r[1..], c));
      }
    }
  }

  /** The links and the counter after the prefix `s` has been read: the list threads the entries of the
      characters seen, least recent first; an entry not seen yet has no links; a lone entry is linked to
      itself exactly when it has been met twice; and if the first two met differ, both ends are null. */
  ghost predicate Threads(list: List, table: seq<Node>, size: nat, s: string, p: string)
    reads list, list.nodes`next, list.nodes`prev, table`next, table`prev
  {
    var r := LeastRecent(s, p);
    && |table| == TABLE_SIZE && NoDuplicates(table) && AllAscii(r)
    && list.Linked()
    && list.nodes == NodesOf(table, r)
    && size == Counter(s, p)
    && (|r| == 1 ==> (list.head.next == null <==> Extra(s, p) == 0))
    && (Extra(s, p) == 0 ==> list.WellFormed())
    && (forall i :: 0 <= i < 128 && i as char in p && i as char !in s ==>
          table[i].next == null && table[i].prev == null)
  }

  /** The positions after the prefix `s` has been read: `MARKER` outside the pattern, and the
      last occurrence for every pattern character seen. */
  ghost predicate Positions(table: seq<Node>, s: string, p: string)
    reads table`pos
  {
    && |table| == TABLE_SIZE
    && (forall i :: 0 <= i < 128 && i as char !in p ==> table[i].pos == MARKER)
    && (forall i :: 0 <= i < 128 && i as char in p ==>
          table[i].pos == if i as char in s then LastIndex(s, i as char) else 0)
  }

  /** The loop body's test for a node outside the list also finds a node that is alone in it. */
  lemma Isolated(list: List, table: seq<Node>, size: nat, s: string, p: string, c: char)
    requires Threads(list, table, size, s, p) && c in p && c as int < 128
    ensures var a := table[c as int];
            && (a in list.nodes <==> c in s)
            && (size == 0 || (a.next == null && a.prev == null) <==>
                c !in s || (Seen(s, p) == {c} && Extra(s, p) == 0))
  {
    var a, r := table[c as int], LeastRecent(s, p);
    LeastRecentHoldsSeen(s, p);
    assert c in s <==> c in Elements(r);
    if c in s {
      var k :| 0 <= k < |r| && r[k] == c;
      assert list.nodes[k] == a;
      if |r| == 1 {
        assert Elements(r) == {c};
      } else if k == 0 {
        assert a.prev == list.nodes[1];
        assert r[1] in Elements(r) && r[1] != c;
      } else {
        assert a.next == list.nodes[k - 1];
        assert r[0] in Elements(r) && r[0] != c;
      }
    } else {
      assert forall k :: 0 <= k < |r| ==> r[k] in Elements(r) && list.nodes[k] != a;
    }
  }

  ghost predicate LooksDetached(a: Node, size: nat)
    reads a
  {
    size == 0 || (a.next == null && a.prev == null)
  }

  lemma TailStays(list: List, a: Node)
    requires list.Linked() && a in list.nodes && a.prev == null
    ensures Without(list.nodes, a) + [a] == list.nodes
  {
    var k :| 0 <= k < |list.nodes| && list.nodes[k] == a;
    assert k == |list.nodes| - 1;
    MoveLast(list.nodes);
  }

  /** The part of the loop body that brings the entry `a` to the back of the list. */
  method Touch(list: List, a: Node, size: size_t) returns (size': size_t)
    requires list.Linked() && size < MARKER
    requires if LooksDetached(a, size) then list.nodes == [a] || a !in list.nodes else a in list.nodes
    modifies list, a`next, a`prev, list.nodes`next, list.nodes`prev
    ensures list.Linked()
    ensures list.nodes == Without(old(list.nodes), a) + [a]
    ensures size' == size + if old(LooksDetached(a, size)) then 1 else 0
    ensures old(list.nodes) == [] ==> a.next == null
    ensures old(list.WellFormed()) && !(old(LooksDetached(a, size)) && old(list.nodes) == [a]) ==> list.WellFormed()
    ensures old(list.nodes) == [a] ==> (a.next == null <==> !old(LooksDetached(a, size)) && old(a.next) == null)
  {
    MovedNoDuplicates(list.nodes, a);
    if a in list.nodes && a.prev == null {
      TailStays(list, a);
    }
    size' := size;
    if size == 0 || (a.next == null && a.prev == null) {
      list.EmplaceBack(a);
      size' := size' + 1;
    }
    if a.prev != null {
      list.MoveToBack(a);
    }
  }

  lemma OneMore(s: string, p: string, c: char)
    requires c in p
    ensures (s + [c])[..|s|] == s
    ensures LeastRecent(s + [c], p) == Without(LeastRecent(s, p), c) + [c]
    ensures forall x :: x in s ==> LastIndex(s + [c], x) == if x == c then |s| else LastIndex(s, x)
    ensures LastIndex(s + [c], c) == |s|
  {
    assert (s + [c])[..|s|] == s;
  }

  /** The list after one more pattern character, from what `Touch` did to it. */
  lemma ThreadsStep(list: List, table: seq<Node>, size: nat, s: string, p: string, c: char)
    requires |table| == TABLE_SIZE && NoDuplicates(table) && c in p && c as int < 128
    requires AllAscii(LeastRecent(s, p)) && list.Linked()
    requires list.nodes == Without(NodesOf(table, LeastRecent(s, p)), table[c as int]) + [table[c as int]]
    requires size == Counter(s + [c], p)
    requires Extra(s + [c], p) == 0 ==> list.WellFormed()
    requires Seen(s, p) <= {c} ==> (list.head.next == null <==> Extra(s + [c], p) == 0)
    requires forall i :: 0 <= i < 128 && i as char in p && i as char !in s && i != c as int ==>
               table[i].next == null && table[i].prev == null
    ensures Threads(list, table, size, s + [c], p)
  {
    LeastRecentStep(table, s, p, c);
    if |LeastRecent(s + [c], p)| == 1 {
      OnlyOneSeen(s, p, c);
    }
    assert c in s + [c] && forall x :: x in s ==> x in s + [c];
  }

  lemma LeastRecentStep(table: seq<Node>, s: string, p: string, c: char)
    requires |table| == TABLE_SIZE && NoDuplicates(table) && c in p && c as int < 128
    requires AllAscii(LeastRecent(s, p))
    ensures AllAscii(LeastRecent(s + [c], p))
    ensures NodesOf(table, LeastRecent(s + [c], p))
         == Without(NodesOf(table, LeastRecent(s, p)), table[c as int]) + [table[c as int]]
  {
    OneMore(s, p, c);
    NodesOfWithout(table, LeastRecent(s, p), c);
  }

  lemma OnlyOneSeen(s: string, p: string, c: char)
    requires c in p && |LeastRecent(s + [c], p)| == 1
    ensures Seen(s, p) <= {c}
  {
    var r' := LeastRecent(s + [c], p);
    OneMore(s, p, c);
    LeastRecentHoldsSeen(s + [c], p);
    SeenStep(s + [c], p);
    assert Elements(r') == {c};
  }

  lemma PositionsStep(table: seq<Node>, s: string, p: string, c: char)
    requires |table| == TABLE_SIZE && c in p && c as int < 128
    requires forall i :: 0 <= i < 128 && i as char !in p ==> table[i].pos == MARKER
    requires forall i :: 0 <= i < 128 && i as char in p && i != c as int ==>
               table[i].pos == if i as char in s then LastIndex(s, i as char) else 0
    requires table[c as int].pos == |s|
    ensures Positions(table, s + [c], p)
  {
    OneMore(s, p, c);
  }

  /** The links after one more pattern character. */
  method Relink(list: List, a: Node, size: size_t,
                ghost table: seq<Node>, ghost s: string, ghost p: string, ghost c: Ascii)
    returns (size': size_t)
    requires Threads(list, table, size, s, p)
    requires c in p && a == table[c as int] && size < MARKER
    modifies list, table`next, table`prev
    ensures Threads(list, table, size', s + [c], p)
  {
    Isolated(list, table, size, s, p, c);
    Unthreaded(list, table, size, s, p);
    if Seen(s, p) <= {c} { AloneNodes(list, table, size, s, p, c); }
    assert (s + [c])[..|s|] == s;
    CounterStep(s + [c], p);
    size' := Touch(list, a, size);
    assert Seen(s, p) <= {c} ==> list.nodes == [a] && list.head == a;
    forall i | 0 <= i < 128 && i as char in p && i as char !in s && i != c as int
      ensures table[i].next == null && table[i].prev == null
    {
      assert table[i] != a && table[i] !in old(list.nodes);
      assert old(table[i].next) == null && old(table[i].prev) == null;
    }
    ThreadsStep(list, table, size', s, p, c);
  }

  /** One round of the loop for a pattern character. */
  method Advance(list: List, a: Node, size: size_t, cur: size_t,
                 ghost table: seq<Node>, ghost s: string, ghost p: string, ghost c: Ascii)
    returns (size': size_t)
    requires Threads(list, table, size, s, p) && Positions(table, s, p)
    requires c in p && a == table[c as int] && cur == |s| && size < MARKER
    modifies list, table
    ensures Threads(list, table, size', s + [c], p) && Positions(table, s + [c], p)
  {
    assert forall i :: 0 <= i < 128 && i != c as int ==> table[i] != a;
    a.pos := cur;
    PositionsStep(table, s, p, c);
    size' := Relink(list, a, size, table, s, p, c);
  }

  lemma AloneNodes(list: List, table: seq<Node>, size: nat, s: string, p: string, c: char)
    requires Threads(list, table, size, s, p) && c in p && c as int < 128 && Seen(s, p) <= {c}
    ensures list.nodes == if c in s then [table[c as int]] else []
    ensures c in s ==> Seen(s, p) == {c} && list.head == table[c as int]
    ensures c in s ==> (list.head.next == null <==> Extra(s, p) == 0)
    ensures c !in s ==> Extra(s, p) == 0
  {
    var r := LeastRecent(s, p);
    LeastRecentHoldsSeen(s, p);
    if c in s {
      assert c in Seen(s, p);
      assert Seen(s, p) == {c};
      assert r[0] in Elements(r);
    } else {
      assert c !in Seen(s, p);
      assert Seen(s, p) == {};
      NothingMet(s, p);
    }
  }

  /** The list lies inside the table, and entries of characters not seen lie outside the list. */
  lemma Unthreaded(list: List, table: seq<Node>, size: nat, s: string, p: string)
    requires Threads(list, table, size, s, p)
    ensures forall i :: 0 <= i < |list.nodes| ==> list.nodes[i] in table
    ensures forall i :: 0 <= i < 128 && i as char !in s ==> table[i] !in list.nodes
  {
    var r := LeastRecent(s, p);
    forall i, k | 0 <= i < 128 && i as char !in s && 0 <= k < |r| ensures table[i] != list.nodes[k] {
      SeenInBoth(s, p, k);
    }
  }

  /** A character outside the pattern changes nothing. */
  lemma Skip(list: List, table: seq<Node>, size: nat, s: string, p: string, c: char)
    requires Threads(list, table, size, s, p) && Positions(table, s, p) && c !in p
    ensures Threads(list, table, size, s + [c], p) && Positions(table, s + [c], p)
    ensures Scan(s + [c], p) == Scan(s, p)
  {
    var s' := s + [c];
    assert s'[..|s|] == s;
    CounterStep(s', p);
    forall x | x in s && x in p ensures LastIndex(s', x) == LastIndex(s, x) {}
  }

  /** The head of the list stores the start of the shortest window that ends here. */
  lemma HeadMarksFront(list: List, table: seq<Node>, size: nat, s: string, p: string)
    requires Threads(list, table, size, s, p) && Positions(table, s, p)
    requires s != [] && s[|s| - 1] in p
    ensures list.nodes != [] && list.nodes[0].pos == FrontStart(s, p) < |s|
  {
    FrontInside(s, p);
    LeastRecentHoldsSeen(s, p);
    SeenStep(s, p);
    assert s[|s| - 1] in Elements(LeastRecent(s, p));
    SeenInBoth(s, p, 0);
    var x := LeastRecent(s, p)[0];
    assert x as int as char == x;
  }

  lemma NodeAt(list: List, table: seq<Node>, size: nat, s: string, p: string, k: nat)
    requires Threads(list, table, size, s, p) && Positions(table, s, p) && k < |list.nodes|
    ensures k < |LeastRecent(s, p)|
    ensures var c := LeastRecent(s, p)[k];
            c as int < 128 && c in s && list.nodes[k] == table[c as int] && list.nodes[k].pos == LastIndex(s, c)
  {
    SeenInBoth(s, p, k);
    var c := LeastRecent(s, p)[k];
    assert c as int as char == c;
  }

  /** What the list says after every round: it holds every pattern character seen so far once, at its last
      occurrence, and in strictly increasing order of that; the counter exceeds its length by `Extra`; and
      `prev` leads from the head through the whole list. */
  lemma ListIsRecencyOrder(list: List, table: seq<Node>, size: nat, s: string, p: string)
    requires Threads(list, table, size, s, p) && Positions(table, s, p)
    ensures |list.nodes| == |Seen(s, p)| && size == |list.nodes| + Extra(s, p)
    ensures forall c :: c in Seen(s, p) ==>
              c as int < 128 && table[c as int] in list.nodes && table[c as int].pos == LastIndex(s, c)
    ensures forall i, j :: 0 <= i < j < |list.nodes| ==> list.nodes[i].pos < list.nodes[j].pos
    ensures forall k: nat :: k <= |list.nodes| ==>
              FollowPrev(list.nodes, list.head, k) == if k < |list.nodes| then list.nodes[k] else null
    ensures Extra(s, p) == 0 ==> list.WellFormed()
  {
    hide Positions;
    forall k: nat | k <= |list.nodes|
      ensures FollowPrev(list.nodes, list.head, k) == if k < |list.nodes| then list.nodes[k] else null
    {
      if list.nodes != [] { PrevWalk(list, 0, k); }
    }
    var r := LeastRecent(s, p);
    LeastRecentHoldsSeen(s, p);
    forall c | c in Seen(s, p)
      ensures c as int < 128 && table[c as int] in list.nodes && table[c as int].pos == LastIndex(s, c)
    {
      assert c in Elements(r);
      var k :| 0 <= k < |r| && r[k] == c;
      NodeAt(list, table, size, s, p, k);
    }
    forall i, j | 0 <= i < j < |list.nodes| ensures list.nodes[i].pos < list.nodes[j].pos {
      LeastRecentOrdered(s, p, i, j);
      NodeAt(list, table, size, s, p, i);
      NodeAt(list, table, size, s, p, j);
    }
  }

  lemma {:induction false} CounterBound(s: string, p: string)
    ensures Counter(s, p) <= |s|
  {
    if s == [] {
      CounterOfNothing(p);
    } else {
      CounterBound(s[..|s| - 1], p);
      CounterStep(s, p);
    }
  }

  /** `min_distance` and `pos` encode the best window so far; `MARKER` means that there is none. */
  ghost predicate Recorded(minDistance: size_t, pos: size_t, found: Found) {
    match found
    case Nothing => minDistance == MARKER
    case Window(start, end) => start < end && minDistance == end - start - 1 < MARKER && pos == end - 1
  }

  /** The part of the loop body that compares the window ending at `cur` with the best one. */
  method Measure(list: List, size: size_t, cur: size_t, minDistance: size_t, pos: size_t, pattern: seq<Ascii>,
                 ghost table: seq<Node>, ghost s: string)
    returns (minDistance': size_t, pos': size_t)
    requires Threads(list, table, size, s, pattern) && Positions(table, s, pattern)
    requires |s| == cur + 1 && cur < MARKER && s[cur] in pattern
    requires Recorded(minDistance, pos, Scan(s[..cur], pattern))
    ensures Recorded(minDistance', pos', Scan(s, pattern))
    ensures var distance := cur - FrontStart(s, pattern);
            (minDistance', pos') == if size == |pattern| && distance < minDistance then (distance, cur)
                                    else (minDistance, pos)
  {
    minDistance', pos' := minDistance, pos;
    HeadMarksFront(list, table, size, s, pattern);
    if size == |pattern| {
      var top := list.Front();
      var distance: size_t := cur - top.pos;
      if distance < minDistance' {
        minDistance' := distance;
        pos' := cur;
      }
    }
  }

  /** The table with one unlinked entry for every character, those of the pattern marked. */
  method MakeTable(pattern: seq<Ascii>) returns (chars: seq<Node>)
    ensures |chars| == TABLE_SIZE == 256 && NoDuplicates(chars)
    ensures forall i :: 0 <= i < TABLE_SIZE ==> fresh(chars[i]) && chars[i].next == null && chars[i].prev == null
    ensures Positions(chars, [], pattern)
  {
    chars := [];
    while |chars| < TABLE_SIZE
      invariant |chars| <= TABLE_SIZE && NoDuplicates(chars)
      invariant forall i :: 0 <= i < |chars| ==> fresh(chars[i]) && chars[i].pos == MARKER
                                                 && chars[i].next == null && chars[i].prev == null
    {
      var a := new Node();
      chars := chars + [a];
    }
    for k := 0 to |pattern|
      invariant forall i :: 0 <= i < TABLE_SIZE ==> chars[i].next == null && chars[i].prev == null
      invariant forall i :: 0 <= i < 128 ==>
                  chars[i].pos == if i as char in pattern[..k] then 0 else MARKER
    {
      var c := pattern[k];
      assert pattern[..k + 1] == pattern[..k] + [c];
      chars[c as int].Mark(c);
    }
    assert pattern[..|pattern|] == pattern;
  }

  /** What holds after every round of the loop. */
  ghost predicate Tracks(list: List, table: seq<Node>, size: nat, minDistance: size_t, pos: size_t,
                         s: string, p: string)
    reads list, list.nodes`next, list.nodes`prev, table
  {
    && Threads(list, table, size, s, p)
    && Positions(table, s, p)
    && Recorded(minDistance, pos, Scan(s, p))
  }

  /** `MARKER` distinguishes the characters outside the pattern, and the counter cannot overflow. */
  lemma Bounds(list: List, table: seq<Node>, size: nat, s: string, p: string, c: Ascii)
    requires Threads(list, table, size, s, p) && Positions(table, s, p) && |s| < MARKER
    ensures |table| == TABLE_SIZE && size <= |s|
    ensures table[c as int].pos == MARKER <==> c !in p
  {
    CounterBound(s, p);
    assert c as int as char == c;
  }

  /** The loop body. */
  method Round(c: Ascii, cur: size_t, list: List, chars: seq<Node>, size: size_t,
               minDistance: size_t, pos: size_t, pattern: seq<Ascii>, ghost s: string)
    returns (size': size_t, minDistance': size_t, pos': size_t)
    requires Tracks(list, chars, size, minDistance, pos, s, pattern) && |s| == cur < MARKER
    modifies list, chars
    ensures Tracks(list, chars, size', minDistance', pos', s + [c], pattern)
  {
    hide Threads, Positions, Recorded, Scan;
    Bounds(list, chars, size, s, pattern, c);
    size', minDistance', pos' := size, minDistance, pos;
    var a := chars[c as int];
    if a.pos == MARKER {
      Skip(list, chars, size, s, pattern, c);
      return;
    }
    size' := Advance(list, a, size, cur, chars, s, pattern, c);
    minDistance', pos' := Measure(list, size', cur, minDistance, pos, pattern, chars, s + [c]);
  }

  lemma Start(list: List, chars: seq<Node>, pattern: string)
    requires |chars| == TABLE_SIZE && NoDuplicates(chars) && list.WellFormed() && list.nodes == []
    requires forall i :: 0 <= i < TABLE_SIZE ==> chars[i].next == null && chars[i].prev == null
    requires Positions(chars, [], pattern)
    ensures Tracks(list, chars, 0, MARKER, 0, [], pattern)
  {
    CounterOfNothing(pattern);
  }

  lemma NextPrefix(input: string, cur: nat)
    requires cur < |input|
    ensures input[..cur + 1] == input[..cur] + [input[cur]]
  {
  }

  /** The loop over the input. */
  method Search(input: seq<Ascii>, pattern: seq<Ascii>, list: List, chars: seq<Node>)
    returns (minDistance: size_t, pos: size_t)
    requires |input| < MARKER
    requires Tracks(list, chars, 0, MARKER, 0, [], pattern)
    modifies list, chars
    ensures Recorded(minDistance, pos, Scan(input, pattern))
  {
    var size: size_t := 0;
    minDistance, pos := MARKER, 0;
    ghost var s := [];
    for cur := 0 to |input|
      invariant s == input[..cur]
      invariant Tracks(list, chars, size, minDistance, pos, s, pattern)
    {
      size, minDistance, pos := Round(input[cur], cur, list, chars, size, minDistance, pos, pattern, s);
      NextPrefix(input, cur);
      s := s + [input[cur]];
    }
    assert input[..|input|] == input;
  }

  /** Reading the answer off `min_distance` and `pos` stays inside the input. */
  lemma Decoded(input: string, p: string, minDistance: size_t, pos: size_t)
    requires Recorded(minDistance, pos, Scan(input, p))
    ensures minDistance == MARKER ==> Answer(input, p) == []
    ensures minDistance != MARKER ==>
              minDistance <= pos < |input| && Answer(input, p) == input[pos - minDistance..pos + 1]
  {
    hide Scan;
    ScanBounds(input, p);
  }

  /** The leftmost shortest substring of `input` that holds every character of `pattern`. */
  method MinWin(input: string, pattern: string) returns (r: string)
    requires |input| < 0xFFFF_FFFF_FFFF_FFFF
    requires forall i :: 0 <= i < |input| ==> input[i] as int < 128
    requires forall i :: 0 <= i < |pattern| ==> pattern[i] as int < 128
    ensures r == Answer(input, pattern)
    ensures MeetsSpec(input, pattern, r) <==> Reliable(input, pattern)
  {
    var chars := MakeTable(pattern);
    var list := new List();
    Start(list, chars, pattern);
    var minDistance, pos := Search(input, pattern, list, chars);
    Decoded(input, pattern, minDistance, pos);
    CorrectExactlyWhenReliable(input, pattern);
    if minDistance == MARKER {
      return [];
    }
    return input[pos - minDistance..pos - minDistance + (minDistance + 1)];
  }
}
