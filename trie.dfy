/** The decoding trie of gunzip/deflate.cpp (`HuffmanNode`, lines 47-69, and
    the insertion loop of `build_huffman_tree`, lines 137-161), with the
    `shared_ptr` nodes kept in an arena: node 0 is the root, a child is a
    node index or -1 for a null pointer. */
module Trie {
  import opened Errors
  import opened Bits
  import opened Huffman
  import opened Seqs

  ghost predicate ValidChild(arena: seq<Node>, c: int)
  {
    c == Null || 0 <= c < |arena|
  }

  /** Every child index names a node of the arena. */
  ghost predicate ValidArena(arena: seq<Node>)
  {
    |arena| > 0 &&
    forall k :: 0 <= k < |arena| ==> ValidChild(arena, arena[k].zero) && ValidChild(arena, arena[k].one)
  }

  function Child(n: Node, bit: Bit): int
  {
    if bit == 1 then n.one else n.zero
  }

  /** The node reached from `m` along the bits `p`, or Null when a null
      child is met on the way. */
  ghost function Follow(arena: seq<Node>, m: int, p: seq<Bit>): (r: int)
    requires ValidArena(arena) && 0 <= m < |arena|
    ensures ValidChild(arena, r)
    decreases |p|
  {
    if p == [] then m
    else
      var c := Child(arena[m], p[0]);
      if c == Null then Null else Follow(arena, c, p[1..])
  }

  /** `a` has become `b` by adding nodes, filling null children and setting
      codes: no non-null child pointer has changed. */
  ghost predicate Grows(a: seq<Node>, b: seq<Node>)
  {
    |a| <= |b| &&
    forall k :: 0 <= k < |a| ==>
      (a[k].zero != Null ==> b[k].zero == a[k].zero) && (a[k].one != Null ==> b[k].one == a[k].one)
  }

  lemma {:induction false} FollowGrows(a: seq<Node>, b: seq<Node>, m: int, p: seq<Bit>)
    requires ValidArena(a) && ValidArena(b) && Grows(a, b) && 0 <= m < |a|
    requires Follow(a, m, p) != Null
    ensures Follow(b, m, p) == Follow(a, m, p)
    decreases |p|
  {
    if p != [] {
      FollowGrows(a, b, Child(a[m], p[0]), p[1..]);
    }
  }

  lemma {:induction false} FollowConcat(arena: seq<Node>, m: int, p: seq<Bit>, q: seq<Bit>)
    requires ValidArena(arena) && 0 <= m < |arena|
    ensures Follow(arena, m, p + q) ==
      if Follow(arena, m, p) == Null then Null else Follow(arena, Follow(arena, m, p), q)
    decreases |p|
  {
    if p == [] {
      assert p + q == q;
    } else {
      assert (p + q)[0] == p[0] && (p + q)[1..] == p[1..] + q;
      var c := Child(arena[m], p[0]);
      if c != Null {
        FollowConcat(arena, c, p[1..], q);
      }
    }
  }

  /** `paths[k]` is the bit string that leads from the root to node `k`. */
  ghost predicate PathsOf(arena: seq<Node>, paths: seq<seq<Bit>>)
    requires ValidArena(arena)
  {
    |paths| == |arena| && paths[0] == [] &&
    forall k :: 0 <= k < |arena| ==>
      (arena[k].zero != Null ==> paths[arena[k].zero] == paths[k] + [0]) &&
      (arena[k].one != Null ==> paths[arena[k].one] == paths[k] + [1])
  }

  /** In a tree-shaped arena a node is reached along one path only. */
  lemma {:induction false} FollowPath(arena: seq<Node>, paths: seq<seq<Bit>>, m: int, p: seq<Bit>)
    requires ValidArena(arena) && PathsOf(arena, paths) && 0 <= m < |arena|
    requires Follow(arena, m, p) != Null
    ensures paths[Follow(arena, m, p)] == paths[m] + p
    decreases |p|
  {
    if p == [] {
      assert paths[m] + p == paths[m];
    } else {
      var c := Child(arena[m], p[0]);
      FollowPath(arena, paths, c, p[1..]);
      assert paths[c] == paths[m] + [p[0]];
      assert paths[m] + [p[0]] + p[1..] == paths[m] + p;
    }
  }

  ghost predicate IsPrefix(a: seq<Bit>, b: seq<Bit>)
  {
    |a| <= |b| && b[..|a|] == a
  }

  /** The bits of the code the table gives symbol `s`. */
  function TableBits(table: seq<CodeEntry>, s: nat): seq<Bit>
    requires s < |table|
  {
    CodeBits(table[s].code, table[s].len)
  }

  /** No code of the table is a prefix of another one (or equal to it). */
  ghost predicate PrefixFree(table: seq<CodeEntry>)
  {
    forall s, t :: 0 <= s < |table| && 0 <= t < |table| && s != t && table[s].len > 0 && table[t].len > 0 ==>
      !IsPrefix(TableBits(table, s), TableBits(table, t))
  }

  /** The trie of a code table: it decodes exactly the codes of the table.
      Every node holding a symbol is reached along that symbol's code only,
      and, when no code is a prefix of another, each symbol's code leads to
      the node holding it. */
  ghost predicate TrieOf(arena: seq<Node>, table: seq<CodeEntry>)
  {
    ValidArena(arena) && arena[0].code == Internal &&
    (forall p :: Follow(arena, 0, p) != Null && arena[Follow(arena, 0, p)].code != Internal ==>
       0 <= arena[Follow(arena, 0, p)].code < |table| && table[arena[Follow(arena, 0, p)].code].len > 0 &&
       p == TableBits(table, arena[Follow(arena, 0, p)].code)) &&
    (PrefixFree(table) ==>
       forall s :: 0 <= s < |table| && table[s].len > 0 ==>
         Follow(arena, 0, TableBits(table, s)) != Null && arena[Follow(arena, 0, TableBits(table, s))].code == s)
  }

  /** Step 4 of `build_huffman_tree` (gunzip/deflate.cpp:137-158): each
      symbol with a code is inserted into the trie, which starts as a lone
      internal root. */
  method BuildTrie(table: seq<CodeEntry>) returns (arena: seq<Node>)
    ensures arena == TrieFrom(table, |table|)
    ensures TrieOf(arena, table)
  {
    arena := [Node(Internal, Null, Null)];
    ghost var paths: seq<seq<Bit>> := [[]];
    for n := 0 to |table|
      invariant Inserted(arena, paths, table, n)
      invariant arena == TrieFrom(table, n)
    {
      arena, paths := InsertSymbol(arena, paths, table, n);
    }
    InsertedTrie(arena, paths, table);
  }

  /** One turn of the insertion loop: symbol `n` is inserted when it has a
      code. */
  method InsertSymbol(arena: seq<Node>, ghost paths: seq<seq<Bit>>, table: seq<CodeEntry>, n: nat)
    returns (result: seq<Node>, ghost paths': seq<seq<Bit>>)
    requires n < |table| && Inserted(arena, paths, table, n) && arena == TrieFrom(table, n)
    ensures Inserted(result, paths', table, n + 1) && result == TrieFrom(table, n + 1)
  {
    result, paths' := arena, paths;
    if table[n].len != 0 {
      ghost var leaf;
      result, paths', leaf := Insert(arena, paths, table[n].code, table[n].len, n);
      InsertedStep(arena, paths, result, paths', leaf, table, n);
    }
  }

  /** Once every symbol is inserted, the arena is the trie of the table. */
  lemma InsertedTrie(arena: seq<Node>, paths: seq<seq<Bit>>, table: seq<CodeEntry>)
    requires Inserted(arena, paths, table, |table|)
    ensures TrieOf(arena, table)
  {
    forall p | Follow(arena, 0, p) != Null && arena[Follow(arena, 0, p)].code != Internal
      ensures p == TableBits(table, arena[Follow(arena, 0, p)].code)
    {
      FollowPath(arena, paths, 0, p);
    }
  }

  /** The arena after the symbols below `n` that have a code were
      inserted, in symbol order, into a lone internal root. */
  function TrieFrom(table: seq<CodeEntry>, n: nat): (r: seq<Node>)
    requires n <= |table|
    ensures ValidArena(r)
  {
    if n == 0 then [Node(Internal, Null, Null)]
    else
      var a := TrieFrom(table, n - 1);
      if table[n - 1].len != 0 then InsertBits(a, 0, TableBits(table, n - 1), n - 1) else a
  }

  /** Inserting `sym` along `bits` from `node`: a missing child is created
      as a new internal node before stepping into it, and the node the bits
      end on gets the code `sym`. */
  function InsertBits(arena: seq<Node>, node: nat, bits: seq<Bit>, sym: int): (r: seq<Node>)
    requires ValidArena(arena) && node < |arena|
    ensures ValidArena(r)
    decreases |bits|
  {
    if bits == [] then arena[node := arena[node].(code := sym)]
    else
      var c := Child(arena[node], bits[0]);
      if c == Null then
        ExtendKeepsValid(arena, node, bits[0]);
        InsertBits(Extend(arena, node, bits[0]), |arena|, bits[1..], sym)
      else InsertBits(arena, c, bits[1..], sym)
  }

  lemma ExtendKeepsValid(arena: seq<Node>, node: nat, bit: Bit)
    requires ValidArena(arena) && node < |arena|
    ensures ValidArena(Extend(arena, node, bit)) && |Extend(arena, node, bit)| == |arena| + 1
  {
  }

  /** The trie after the first `n` symbols have been inserted. */
  ghost predicate Inserted(arena: seq<Node>, paths: seq<seq<Bit>>, table: seq<CodeEntry>, n: nat)
  {
    n <= |table| && ValidArena(arena) && arena[0].code == Internal && PathsOf(arena, paths) &&
    (forall k :: 0 <= k < |arena| && arena[k].code != Internal ==>
       0 <= arena[k].code < n && table[arena[k].code].len > 0 && paths[k] == TableBits(table, arena[k].code)) &&
    (forall s :: 0 <= s < n && table[s].len > 0 ==> Follow(arena, 0, TableBits(table, s)) != Null) &&
    (PrefixFree(table) ==> forall s :: 0 <= s < n && table[s].len > 0 ==>
       arena[Follow(arena, 0, TableBits(table, s))].code == s)
  }

  /** Every node of `b` other than `leaf` holds the code it held in `a`,
      and the nodes `b` adds are internal. */
  ghost predicate OnlyLeafChanged(a: seq<Node>, b: seq<Node>, leaf: int)
  {
    |a| <= |b| &&
    forall k :: 0 <= k < |b| && k != leaf ==> b[k].code == if k < |a| then a[k].code else Internal
  }

  lemma InsertedStep(arena0: seq<Node>, paths0: seq<seq<Bit>>, arena: seq<Node>, paths: seq<seq<Bit>>,
                     leaf: int, table: seq<CodeEntry>, n: nat)
    requires n < |table| && table[n].len > 0 && Inserted(arena0, paths0, table, n)
    requires ValidArena(arena) && arena[0].code == Internal && PathsOf(arena, paths)
    requires Grows(arena0, arena) && paths[..|arena0|] == paths0
    requires leaf == Follow(arena, 0, TableBits(table, n)) && leaf != Null
    requires arena[leaf].code == n && paths[leaf] == TableBits(table, n)
    requires OnlyLeafChanged(arena0, arena, leaf)
    ensures Inserted(arena, paths, table, n + 1)
  {
    forall s | 0 <= s < n && table[s].len > 0
      ensures Follow(arena, 0, TableBits(table, s)) == Follow(arena0, 0, TableBits(table, s))
    {
      FollowGrows(arena0, arena, 0, TableBits(table, s));
    }
    forall k | 0 <= k < |arena| && arena[k].code != Internal
      ensures 0 <= arena[k].code < n + 1 && table[arena[k].code].len > 0 && paths[k] == TableBits(table, arena[k].code)
    {
      if k != leaf {
        assert paths[k] == paths0[k];
      }
    }
    if PrefixFree(table) {
      forall s | 0 <= s < n && table[s].len > 0
        ensures arena[Follow(arena, 0, TableBits(table, s))].code == s
      {
        var k := Follow(arena0, 0, TableBits(table, s));
        assert k < |arena0| && paths[k] == paths0[k];
      }
    }
  }

  /** The body of the insertion loop (gunzip/deflate.cpp:141-157). The walk
      starts at the root, tests the code's bits from bit `len - 1` down to
      bit 0, creates a missing child before stepping into it, and stores `sym` in the node it ends on. Only
      that node's code changes, and no existing child pointer does. */
  method Insert(arena: seq<Node>, ghost paths: seq<seq<Bit>>, code: nat, len: nat, sym: nat)
    returns (result: seq<Node>, ghost paths': seq<seq<Bit>>, ghost leaf: int)
    requires ValidArena(arena) && arena[0].code == Internal && PathsOf(arena, paths) && len > 0
    ensures ValidArena(result) && result[0].code == Internal && PathsOf(result, paths')
    ensures Grows(arena, result) && paths'[..|arena|] == paths
    ensures leaf == Follow(result, 0, CodeBits(code, len)) && leaf != Null
    ensures result[leaf].code == sym && paths'[leaf] == CodeBits(code, len)
    ensures OnlyLeafChanged(arena, result, leaf)
    ensures result == InsertBits(arena, 0, CodeBits(code, len), sym)
  {
    result, paths' := arena, paths;
    ghost var bitsOf := CodeBits(code, len);
    var node := 0;
    var bits := len;
    ghost var goal := InsertBits(arena, 0, bitsOf, sym);
    ghost var i := 0;
    assert bitsOf[i..] == bitsOf;
    while bits > 0
      invariant 0 <= bits <= len && i == len - bits
      invariant Walking(arena, paths, result, paths', node, bitsOf[..i])
      invariant goal == InsertBits(result, node, bitsOf[i..], sym)
    {
      CodeBitsAt(code, len, i);
      var bit: Bit := CodeBit(code, bits - 1);
      result, paths', node := Descend(arena, paths, result, paths', node, bitsOf, i, bit, sym, goal);
      bits, i := bits - 1, i + 1;
    }
    assert bitsOf[..len] == bitsOf;
    result, paths', leaf := PlaceLeaf(arena, paths, result, paths', node, bitsOf, sym);
  }

  /** The end of the insertion walk: the node the whole code leads to gets
      the symbol (gunzip/deflate.cpp:156). */
  method PlaceLeaf(ghost arena: seq<Node>, ghost paths: seq<seq<Bit>>, filled: seq<Node>, ghost paths': seq<seq<Bit>>,
                   node: nat, ghost word: seq<Bit>, sym: nat)
    returns (result: seq<Node>, ghost paths2: seq<seq<Bit>>, ghost leaf: int)
    requires ValidArena(arena) && |word| > 0 && Walking(arena, paths, filled, paths', node, word)
    requires InsertBits(arena, 0, word, sym) == InsertBits(filled, node, [], sym)
    ensures ValidArena(result) && result[0].code == Internal && PathsOf(result, paths2)
    ensures Grows(arena, result) && paths2[..|arena|] == paths
    ensures leaf == Follow(result, 0, word) && leaf != Null
    ensures result[leaf].code == sym && paths2[leaf] == word
    ensures OnlyLeafChanged(arena, result, leaf)
    ensures result == InsertBits(arena, 0, word, sym)
  {
    FollowPath(filled, paths', 0, word);
    result := filled[node := filled[node].(code := sym)];
    assert forall k :: 0 <= k < |result| ==> result[k].zero == filled[k].zero && result[k].one == filled[k].one;
    FollowGrows(filled, result, 0, word);
    paths2, leaf := paths', node;
  }

  /** The state of the insertion walk after the bits `prefix`: `result`
      has grown from `arena` by adding internal nodes and filling null
      children, and `node` is where `prefix` leads. */
  ghost predicate Walking(arena: seq<Node>, paths: seq<seq<Bit>>, result: seq<Node>, paths': seq<seq<Bit>>,
                          node: int, prefix: seq<Bit>)
  {
    ValidArena(result) && result[0].code == Internal && PathsOf(result, paths') &&
    Grows(arena, result) && paths'[..|arena|] == paths &&
    (forall k :: 0 <= k < |result| ==> result[k].code == if k < |arena| then arena[k].code else Internal) &&
    0 <= node < |result| && Follow(result, 0, prefix) == node
  }

  /** One step of the insertion walk: into `node`'s `bit` child, created
      first when it is null (gunzip/deflate.cpp:143-154). */
  method Descend(ghost arena: seq<Node>, ghost paths: seq<seq<Bit>>, result: seq<Node>, ghost paths': seq<seq<Bit>>,
                 node: nat, ghost word: seq<Bit>, ghost i: nat, bit: Bit, ghost sym: int, ghost goal: seq<Node>)
    returns (result2: seq<Node>, ghost paths2: seq<seq<Bit>>, child: nat)
    requires i < |word| && bit == word[i]
    requires Walking(arena, paths, result, paths', node, word[..i])
    requires goal == InsertBits(result, node, word[i..], sym)
    ensures Walking(arena, paths, result2, paths2, child, word[..i + 1])
    ensures goal == InsertBits(result2, child, word[i + 1..], sym)
  {
    DropCons(word, i);
    TakeSnoc(word, i);
    result2, paths2 := result, paths';
    if Child(result[node], bit) == Null {
      ExtendValid(result, paths', node, bit);
      result2 := Extend(result, node, bit);
      paths2 := paths' + [paths'[node] + [bit]];
      assert paths2[..|result|] == paths';
    }
    child := Child(result2[node], bit);
    DescendKeeps(arena, paths, result, paths', result2, paths2);
    DescendFollows(result, result2, word[..i], bit, child);
  }

  /** What a step of the walk keeps about the arena the insertion started
      from. */
  lemma DescendKeeps(arena: seq<Node>, paths: seq<seq<Bit>>, before: seq<Node>, pathsBefore: seq<seq<Bit>>,
                     after: seq<Node>, pathsAfter: seq<seq<Bit>>)
    requires |pathsBefore| == |before| && |pathsAfter| == |after|
    requires Grows(arena, before) && pathsBefore[..|arena|] == paths
    requires forall k :: 0 <= k < |before| ==> before[k].code == if k < |arena| then arena[k].code else Internal
    requires Grows(before, after) && pathsAfter[..|before|] == pathsBefore
    requires forall k :: 0 <= k < |after| ==> after[k].code == if k < |before| then before[k].code else Internal
    ensures Grows(arena, after) && pathsAfter[..|arena|] == paths
    ensures forall k :: 0 <= k < |after| ==> after[k].code == if k < |arena| then arena[k].code else Internal
  {
    GrowsTrans(arena, before, after);
    assert pathsAfter[..|arena|] == pathsAfter[..|before|][..|arena|];
  }

  /** The node a step of the walk reaches lies one bit further along the
      path. */
  lemma DescendFollows(before: seq<Node>, after: seq<Node>, prefix: seq<Bit>, bit: Bit, child: nat)
    requires ValidArena(before) && ValidArena(after) && Grows(before, after)
    requires 0 <= Follow(before, 0, prefix) < |before|
    requires child < |after| && child == Child(after[Follow(before, 0, prefix)], bit)
    ensures Follow(after, 0, prefix + [bit]) == child
  {
    FollowGrows(before, after, 0, prefix);
    FollowConcat(after, 0, prefix, [bit]);
  }

  /** `node`'s `bit` child set to a new internal node appended at the end:
      the C++ allocates a fresh node with code -1 and stores it as the one
      or the zero child. */
  function Extend(arena: seq<Node>, node: nat, bit: Bit): seq<Node>
    requires node < |arena|
  {
    var added := |arena|;
    arena[node := if bit == 1 then arena[node].(one := added) else arena[node].(zero := added)]
      + [Node(Internal, Null, Null)]
  }

  lemma ExtendValid(arena: seq<Node>, paths: seq<seq<Bit>>, node: nat, bit: Bit)
    requires ValidArena(arena) && arena[0].code == Internal && PathsOf(arena, paths)
    requires node < |arena| && Child(arena[node], bit) == Null
    ensures ValidArena(Extend(arena, node, bit)) && Extend(arena, node, bit)[0].code == Internal
    ensures PathsOf(Extend(arena, node, bit), paths + [paths[node] + [bit]])
    ensures Grows(arena, Extend(arena, node, bit))
    ensures Child(Extend(arena, node, bit)[node], bit) == |arena|
    ensures forall k :: 0 <= k < |arena| ==> Extend(arena, node, bit)[k].code == arena[k].code
    ensures Extend(arena, node, bit)[|arena|].code == Internal
  {
    var e := Extend(arena, node, bit);
    var ps := paths + [paths[node] + [bit]];
    assert |e| == |arena| + 1;
    forall k | 0 <= k < |e|
      ensures (e[k].zero != Null ==> ps[e[k].zero] == ps[k] + [0])
      ensures (e[k].one != Null ==> ps[e[k].one] == ps[k] + [1])
    {
      if k < |arena| {
        assert ps[k] == paths[k];
      }
    }
  }

  lemma GrowsTrans(a: seq<Node>, b: seq<Node>, c: seq<Node>)
    requires Grows(a, b) && Grows(b, c)
    ensures Grows(a, c)
  {
  }

  lemma {:induction false} CodeBitsAt(code: nat, len: nat, i: nat)
    requires i < len
    ensures CodeBits(code, len)[i] == CodeBit(code, len - 1 - i)
    decreases len
  {
    if i > 0 {
      CodeBitsAt(code, len - 1, i - 1);
    }
  }

  /** Decoding one symbol from bit position `pos` of `bytes`, starting at
      node `m` (gunzip/deflate.cpp:58-69): a node whose code is not -1 ends
      the walk with that code and the position after the last bit read; the
      end of the input, or a null child (a null pointer dereference in the
      C++), is an error. */
  ghost function Walk(arena: seq<Node>, m: int, bytes: seq<Byte>, pos: nat): (r: Result<(int, nat)>)
    requires ValidArena(arena) && 0 <= m < |arena| && pos <= 8 * |bytes|
    ensures r.Ok? ==> r.value.0 != Internal && pos <= r.value.1 <= 8 * |bytes|
    ensures r.Err? ==> r.error == EndOfStream || r.error == NullChild
    decreases 8 * |bytes| - pos
  {
    if arena[m].code != Internal then Ok((arena[m].code, pos))
    else if pos == 8 * |bytes| then Err(EndOfStream)
    else
      var c := Child(arena[m], BitAt(bytes, pos));
      if c == Null then Err(NullChild) else Walk(arena, c, bytes, pos + 1)
  }

  /** `HuffmanNode::read` (gunzip/deflate.cpp:58-69): one bit per step from
      the root until a node with a code is reached. */
  method ReadSymbol(arena: seq<Node>, reader: Reader) returns (r: Result<int>)
    requires ValidArena(arena) && reader.Valid()
    modifies reader
    ensures reader.Valid()
    ensures Agrees(r, Walk(arena, 0, reader.bytes, old(reader.Pos())), reader.Pos())
  {
    var node := 0;
    while arena[node].code == Internal
      invariant reader.Valid() && 0 <= node < |arena|
      invariant Walk(arena, 0, reader.bytes, old(reader.Pos())) == Walk(arena, node, reader.bytes, reader.Pos())
      decreases 8 * |reader.bytes| - reader.Pos()
    {
      var bit := reader.ReadBit();
      if bit.Err? {
        return Err(bit.error);
      }
      var next := Child(arena[node], bit.value);
      if next == Null {
        return Err(NullChild);
      }
      node := next;
    }
    r := Ok(arena[node].code);
  }

  /** A successful walk read the bits of a path ending on a node with a code. */
  lemma {:induction false} WalkReadsPath(arena: seq<Node>, m: int, bytes: seq<Byte>, pos: nat)
    requires ValidArena(arena) && 0 <= m < |arena| && pos <= 8 * |bytes|
    requires Walk(arena, m, bytes, pos).Ok?
    ensures var (sym, q) := Walk(arena, m, bytes, pos).value;
      pos <= q <= 8 * |bytes| && Follow(arena, m, StreamBits(bytes, pos, q - pos)) != Null &&
      arena[Follow(arena, m, StreamBits(bytes, pos, q - pos))].code == sym != Internal
    decreases 8 * |bytes| - pos
  {
    if arena[m].code == Internal {
      var c := Child(arena[m], BitAt(bytes, pos));
      WalkReadsPath(arena, c, bytes, pos + 1);
      var q := Walk(arena, m, bytes, pos).value.1;
      var p := StreamBits(bytes, pos, q - pos);
      assert p[0] == BitAt(bytes, pos) && p[1..] == StreamBits(bytes, pos + 1, q - pos - 1);
    }
  }

  /** A walk from an internal root reads at least one bit. */
  lemma WalkAdvances(arena: seq<Node>, bytes: seq<Byte>, pos: nat)
    requires ValidArena(arena) && arena[0].code == Internal && pos <= 8 * |bytes|
    requires Walk(arena, 0, bytes, pos).Ok?
    ensures pos < Walk(arena, 0, bytes, pos).value.1 <= 8 * |bytes|
  {
    WalkReadsPath(arena, 0, bytes, pos);
  }

  /** A successful walk in a tree whose codes are below `n` returns a
      symbol below `n`. */
  lemma WalkCodeBelow(arena: seq<Node>, bytes: seq<Byte>, pos: nat, n: int)
    requires ValidArena(arena) && CodesBelow(arena, n) && pos <= 8 * |bytes|
    requires Walk(arena, 0, bytes, pos).Ok?
    ensures 0 <= Walk(arena, 0, bytes, pos).value.0 < n
  {
    WalkReadsPath(arena, 0, bytes, pos);
  }

  /** A walk along a path whose inner nodes are all internal ends on the
      path's last node, having read exactly the path's bits. */
  lemma {:induction false} WalkAlongPath(arena: seq<Node>, m: int, p: seq<Bit>, bytes: seq<Byte>, pos: nat)
    requires ValidArena(arena) && 0 <= m < |arena| && pos + |p| <= 8 * |bytes|
    requires StreamBits(bytes, pos, |p|) == p
    requires Follow(arena, m, p) != Null && arena[Follow(arena, m, p)].code != Internal
    requires forall i :: 0 <= i < |p| ==> InternalAt(arena, m, p, i)
    ensures Walk(arena, m, bytes, pos) == Ok((arena[Follow(arena, m, p)].code, pos + |p|))
    decreases |p|
  {
    if p != [] {
      assert InternalAt(arena, m, p, 0);
      assert p[..0] == [];
      var c := Child(arena[m], p[0]);
      forall i | 0 <= i < |p| - 1
        ensures InternalAt(arena, c, p[1..], i)
      {
        assert InternalAt(arena, m, p, i + 1);
        assert p[..i + 1] == [p[0]] + p[1..][..i];
      }
      WalkAlongPath(arena, c, p[1..], bytes, pos + 1);
    }
  }

  /** The node after the first `i` bits of `p` exists and is internal. */
  ghost predicate InternalAt(arena: seq<Node>, m: int, p: seq<Bit>, i: nat)
    requires ValidArena(arena) && 0 <= m < |arena| && i <= |p|
  {
    Follow(arena, m, p[..i]) != Null && arena[Follow(arena, m, p[..i])].code == Internal
  }

  /** Decoding is sound: whatever symbol a walk from the root of a trie
      returns has a code, and the walk consumed exactly that code's bits. */
  lemma DecodeSound(arena: seq<Node>, table: seq<CodeEntry>, bytes: seq<Byte>, pos: nat)
    requires TrieOf(arena, table) && pos <= 8 * |bytes| && Walk(arena, 0, bytes, pos).Ok?
    ensures var (sym, q) := Walk(arena, 0, bytes, pos).value;
      0 <= sym < |table| && table[sym].len > 0 && q == pos + table[sym].len && q <= 8 * |bytes| &&
      StreamBits(bytes, pos, table[sym].len) == TableBits(table, sym)
  {
    WalkReadsPath(arena, 0, bytes, pos);
  }

  /** Decoding is complete: when no code is a prefix of another, the bits
      of symbol `s`'s code decode to `s` and consume exactly `len(s)` bits. */
  lemma DecodeComplete(arena: seq<Node>, table: seq<CodeEntry>, bytes: seq<Byte>, pos: nat, s: nat)
    requires TrieOf(arena, table) && PrefixFree(table)
    requires s < |table| && table[s].len > 0 && pos + table[s].len <= 8 * |bytes|
    requires StreamBits(bytes, pos, table[s].len) == TableBits(table, s)
    ensures Walk(arena, 0, bytes, pos) == Ok((s, pos + table[s].len))
  {
    var p := TableBits(table, s);
    forall i | 0 <= i < |p|
      ensures InternalAt(arena, 0, p, i)
    {
      assert p[..i] + p[i..] == p;
      FollowConcat(arena, 0, p[..i], p[i..]);
      var k := Follow(arena, 0, p[..i]);
      if arena[k].code != Internal {
        var t := arena[k].code;
        assert p[..i] == TableBits(table, t);
        assert IsPrefix(TableBits(table, t), p);
        assert false;
      }
    }
    WalkAlongPath(arena, 0, p, bytes, pos);
  }

  /** The RFC 1951 code table of a list of code lengths. */
  ghost function CanonicalTable(lengths: seq<nat>): (table: seq<CodeEntry>)
    ensures |table| == |lengths|
  {
    seq(|lengths|, s requires 0 <= s < |lengths| =>
      CodeEntry(lengths[s], if lengths[s] == 0 then 0 else RfcCode(lengths, s)))
  }

  /** Whether a trie decodes a table depends only on each symbol's length
      and code bits. */
  lemma TrieOfSameBits(arena: seq<Node>, t1: seq<CodeEntry>, t2: seq<CodeEntry>)
    requires |t1| == |t2| && TrieOf(arena, t1)
    requires forall s :: 0 <= s < |t1| ==> t1[s].len == t2[s].len && TableBits(t1, s) == TableBits(t2, s)
    ensures TrieOf(arena, t2) && (PrefixFree(t1) <==> PrefixFree(t2))
  {
  }

  /** The trie `build_huffman_tree` returns for a range list: its root is
      internal and every other code is one of its symbols. */
  ghost function HuffmanTree(ranges: seq<Range>): (arena: seq<Node>)
    requires ValidRanges(ranges)
    ensures ValidArena(arena) && arena[0].code == Internal && CodesBelow(arena, |Expand(ranges)|)
  {
    TrieFromShape(SourceTable(Expand(ranges)), |Expand(ranges)|);
    TrieFrom(SourceTable(Expand(ranges)), |Expand(ranges)|)
  }

  /** Every child index is larger than its parent's: the arena is a tree
      grown downwards from the root. */
  ghost predicate Ordered(arena: seq<Node>)
  {
    forall k :: 0 <= k < |arena| ==>
      (arena[k].zero == Null || arena[k].zero > k) && (arena[k].one == Null || arena[k].one > k)
  }

  /** Every node is internal or holds a symbol below `n`. */
  ghost predicate CodesBelow(arena: seq<Node>, n: int)
  {
    forall k :: 0 <= k < |arena| ==> arena[k].code == Internal || 0 <= arena[k].code < n
  }

  lemma {:induction false} InsertBitsShape(arena: seq<Node>, node: nat, bits: seq<Bit>, sym: int, n: int)
    requires ValidArena(arena) && Ordered(arena) && node < |arena| && CodesBelow(arena, n) && 0 <= sym < n
    requires node > 0 || bits != []
    ensures Ordered(InsertBits(arena, node, bits, sym)) && CodesBelow(InsertBits(arena, node, bits, sym), n)
    ensures InsertBits(arena, node, bits, sym)[0].code == arena[0].code
    decreases |bits|
  {
    if bits != [] {
      var c := Child(arena[node], bits[0]);
      if c == Null {
        ExtendKeepsValid(arena, node, bits[0]);
        InsertBitsShape(Extend(arena, node, bits[0]), |arena|, bits[1..], sym, n);
      } else {
        InsertBitsShape(arena, c, bits[1..], sym, n);
      }
    }
  }

  lemma {:induction false} TrieFromShape(table: seq<CodeEntry>, n: nat)
    requires n <= |table|
    ensures Ordered(TrieFrom(table, n)) && CodesBelow(TrieFrom(table, n), n)
    ensures TrieFrom(table, n)[0].code == Internal
  {
    if n > 0 {
      TrieFromShape(table, n - 1);
      if table[n - 1].len != 0 {
        InsertBitsShape(TrieFrom(table, n - 1), 0, TableBits(table, n - 1), n - 1, n);
      }
    }
  }

  /** `build_huffman_tree` (gunzip/deflate.cpp:95-161). An empty range
      list is an error (`ranges.back()` on an empty vector); otherwise the
      result is a trie that decodes the RFC 1951 canonical code of the
      lengths the ranges describe, whatever `bl_count[0]` adds to the
      stored codes. */
  method BuildHuffmanTree(ranges: seq<Range>) returns (r: Result<seq<Node>>)
    requires ValidRanges(ranges)
    ensures ranges == [] ==> r == Err(EmptyRanges)
    ensures ranges != [] ==> r == Ok(HuffmanTree(ranges)) && TrieOf(r.value, CanonicalTable(Expand(ranges)))
  {
    if ranges == [] {
      return Err(EmptyRanges);
    }
    var table := AssignCodes(ranges);
    var arena := BuildTrie(table);
    ghost var lengths := Expand(ranges);
    forall s | 0 <= s < |table|
      ensures TableBits(table, s) == TableBits(CanonicalTable(lengths), s)
    {
      if table[s].len != 0 {
        SourceCodeAgrees(lengths, s);
      }
    }
    TrieOfSameBits(arena, table, CanonicalTable(lengths));
    r := Ok(arena);
  }
}
