/** lib/wordsplit.c: the node list of wordsplit_len, from scanning to the copied words. */
module WordSplit {
  import opened Bytes
  import Quoting
  import opened Splitting

  /** The node flags. _WSNF_WORD is the tag of Value; _WSNF_NULL and _WSNF_SEXP are not used here. */
  datatype Flags = Flags(quote: bool, noexpand: bool, join: bool)

  /** The union of struct wordsplit_node. The text of a word ends before its first NUL. */
  datatype Value = Segm(beg: nat, end: nat) | Word(text: seq<byte>)

  /** What a node holds besides its links. */
  datatype View = View(flags: Flags, v: Value)

  const PLAIN: Flags := Flags(false, false, false)

  function Seen(p: Piece, join: bool): View {
    View(Flags(p.kind != Plain, p.kind == Single, join), Segm(p.beg, p.end))
  }

  /** The nodes of a word: all but the last are joined to their successor. */
  function WordViews(w: seq<Piece>): (r: seq<View>)
    ensures |r| == |w|
  {
    seq(|w|, i requires 0 <= i < |w| => Seen(w[i], i + 1 < |w|))
  }

  function AllViews(ws: seq<seq<Piece>>): seq<View> {
    if ws == [] then [] else WordViews(ws[0]) + AllViews(ws[1..])
  }

  lemma {:induction false} AllViewsAppend(ws: seq<seq<Piece>>, w: seq<Piece>)
    ensures AllViews(ws + [w]) == AllViews(ws) + WordViews(w)
    decreases |ws|
  {
    hide WordViews;
    if ws == [] {
      assert [w] == [] + [w] && AllViews([]) == [] && AllViews([w]) == WordViews(w) + AllViews([]);
    } else {
      AllViewsAppend(ws[1..], w);
      assert (ws + [w])[1..] == ws[1..] + [w];
      Assoc(WordViews(ws[0]), AllViews(ws[1..]), WordViews(w));
    }
  }

  /** While a word is scanned all its nodes are joined; with a next piece the last one is, too. */
  function Joining(w: seq<Piece>): (r: seq<View>)
    ensures |r| == |w|
  {
    seq(|w|, i requires 0 <= i < |w| => Seen(w[i], true))
  }

  lemma JoinLast(base: seq<View>, w: seq<Piece>)
    requires w != []
    ensures var vs := base + WordViews(w);
            vs[|vs| - 1 := View(vs[|vs| - 1].flags.(join := true), vs[|vs| - 1].v)] == base + Joining(w)
  {
  }

  lemma JoiningMore(base: seq<View>, w: seq<Piece>, p: Piece)
    ensures base + Joining(w) + [Seen(p, true)] == base + Joining(w + [p])
    ensures base + Joining(w) + [Seen(p, false)] == base + WordViews(w + [p])
  {
  }

  predicate InText(v: View, n: nat) { v.v.Segm? ==> v.v.beg <= v.v.end <= n }

  /** wsnode_ptr and wsnode_len */
  function NodeText(m: seq<byte>, v: View): seq<byte>
    requires InText(v, |m|)
  {
    match v.v
    case Segm(beg, end) => m[beg..end]
    case Word(text) => text
  }

  // ---- quote removal and coalescing, on what the nodes hold ----

  predicate AllIn(vs: seq<View>, n: nat) { forall i :: 0 <= i < |vs| ==> InText(vs[i], n) }

  predicate Unquotes(c: Config, v: View) { c.quote && !v.flags.noexpand && v.v.Segm? }

  /** What wsnode_quoteremoval makes of a node. */
  function Removed(c: Config, m: seq<byte>, v: View): View
    requires InText(v, |m|)
  {
    if Unquotes(c, v) then View(v.flags, Word(Unquoted(c, m, v.v.beg, v.v.end))) else v
  }

  function RemovedAll(c: Config, m: seq<byte>, vs: seq<View>): (r: seq<View>)
    requires AllIn(vs, |m|)
    ensures |r| == |vs| && forall i :: 0 <= i < |vs| ==> r[i] == Removed(c, m, vs[i])
    ensures AllIn(r, |m|)
  {
    seq(|vs|, i requires 0 <= i < |vs| => Removed(c, m, vs[i]))
  }

  /** The buffer of |text| + 1 bytes is large enough for every node's unquoted text. */
  predicate Roomy(c: Config, m: seq<byte>, vs: seq<View>)
    requires AllIn(vs, |m|)
  {
    forall i :: 0 <= i < |vs| && Unquotes(c, vs[i]) ==>
      |RawText(c, m, vs[i].v.beg, vs[i].v.end)| <= vs[i].v.end - vs[i].v.beg
  }

  function ChainText(m: seq<byte>, vs: seq<View>): seq<byte>
    requires AllIn(vs, |m|)
  {
    if vs == [] then [] else ChainText(m, vs[..|vs| - 1]) + NodeText(m, vs[|vs| - 1])
  }

  /** How many nodes the JOIN chain at the front has. */
  function ChainLength(vs: seq<View>): (r: nat)
    requires vs != []
    ensures 1 <= r <= |vs|
  {
    if |vs| == 1 || !vs[0].flags.join then 1 else 1 + ChainLength(vs[1..])
  }

  /** The node that replaces a chain. */
  function Merged(m: seq<byte>, vs: seq<View>): (r: View)
    requires vs != [] && AllIn(vs, |m|)
    ensures InText(r, |m|)
  {
    if |vs| == 1 then vs[0] else View(vs[0].flags.(join := false), Word(CString(ChainText(m, vs))))
  }

  /** The list after the chain that starts at k has been replaced. */
  function ChainMerged(m: seq<byte>, vs: seq<View>, k: nat): (r: seq<View>)
    requires k < |vs| && AllIn(vs, |m|)
    ensures AllIn(r, |m|)
  {
    var l := ChainLength(vs[k..]);
    vs[..k] + [Merged(m, vs[k..k + l])] + vs[k + l..]
  }

  /** One node for each JOIN chain. */
  function Coalesced(m: seq<byte>, vs: seq<View>): (r: seq<View>)
    requires AllIn(vs, |m|)
    ensures AllIn(r, |m|)
  {
    if vs == [] then []
    else var l := ChainLength(vs); [Merged(m, vs[..l])] + Coalesced(m, vs[l..])
  }

  /** Each JOIN node has a successor. */
  predicate Closed(vs: seq<View>) { vs != [] ==> !vs[|vs| - 1].flags.join }

  /** Disjoint segments of the first hi bytes, in order, and each JOIN node has a successor. */
  predicate ListOk(vs: seq<View>, hi: nat) {
    && Closed(vs)
    && (forall i :: 0 <= i < |vs| ==> vs[i].v.Segm? && vs[i].v.beg <= vs[i].v.end <= hi)
    && (forall i, j :: 0 <= i < j < |vs| ==> vs[i].v.end <= vs[j].v.beg)
  }

  lemma ListOkMore(vs: seq<View>, ps: seq<Piece>, lo: nat, hi: nat, hi': nat)
    requires ListOk(vs, lo) && InOrder(ps, lo, hi) && lo <= hi <= hi'
    ensures ListOk(vs + WordViews(ps), hi')
  {
  }

  function NodeTexts(m: seq<byte>, vs: seq<View>): (r: seq<seq<byte>>)
    requires AllIn(vs, |m|)
    ensures |r| == |vs| && forall i :: 0 <= i < |vs| ==> r[i] == NodeText(m, vs[i])
  {
    seq(|vs|, i requires 0 <= i < |vs| => NodeText(m, vs[i]))
  }

  // ---- what the node list of the words comes to ----

  lemma {:induction false} AllViewsIn(ws: seq<seq<Piece>>, n: nat)
    requires WordsFit(ws, n)
    ensures AllIn(AllViews(ws), n) && Closed(AllViews(ws))
    decreases |ws|
  {
    if ws != [] {
      AllViewsIn(ws[1..], n);
      assert AllIn(WordViews(ws[0]), n) && Closed(WordViews(ws[0]));
    }
  }

  /** A word after quote removal. */
  function Bared(c: Config, m: seq<byte>, w: seq<Piece>): (r: seq<View>)
    requires AllFit(w, |m|)
    ensures |r| == |w| && AllIn(r, |m|)
  {
    RemovedAll(c, m, WordViews(w))
  }

  lemma BaredText(c: Config, m: seq<byte>, w: seq<Piece>, i: nat)
    requires AllFit(w, |m|) && i < |w|
    ensures NodeText(m, Bared(c, m, w)[i]) == PieceText(c, m, w[i])
    ensures Bared(c, m, w)[i].flags.join <==> i + 1 < |w|
  {
  }

  lemma {:induction false} ChainTextIsJoined(c: Config, m: seq<byte>, w: seq<Piece>, k: nat)
    requires AllFit(w, |m|) && k <= |w|
    ensures ChainText(m, Bared(c, m, w)[..k]) + Joined(c, m, w[k..]) == Joined(c, m, w)
  {
    hide PieceText, Bared, NodeText;
    if k == 0 {
      assert w[0..] == w && Bared(c, m, w)[..0] == [];
      assert ChainText(m, []) + Joined(c, m, w) == Joined(c, m, w);
    } else {
      ChainTextIsJoined(c, m, w, k - 1);
      BaredText(c, m, w, k - 1);
      var vs := Bared(c, m, w);
      assert vs[..k][..k - 1] == vs[..k - 1] && w[k - 1..][1..] == w[k..];
      Assoc(ChainText(m, vs[..k - 1]), NodeText(m, vs[k - 1]), Joined(c, m, w[k..]));
    }
  }

  lemma {:induction false} WordChain(c: Config, m: seq<byte>, w: seq<Piece>, k: nat, rest: seq<View>)
    requires AllFit(w, |m|) && k < |w|
    ensures ChainLength(Bared(c, m, w)[k..] + rest) == |w| - k
    decreases |w| - k
  {
    hide Bared;
    var vs := Bared(c, m, w);
    BaredText(c, m, w, k);
    if k + 1 < |w| {
      WordChain(c, m, w, k + 1, rest);
      assert (vs[k..] + rest)[1..] == vs[k + 1..] + rest;
    }
  }

  /** The chain of a word coalesces into the text of the word. */
  lemma WordMerged(c: Config, m: seq<byte>, w: seq<Piece>)
    requires AllFit(w, |m|) && w != []
    ensures NodeText(m, Merged(m, Bared(c, m, w))) == WordText(c, m, w)
  {
    hide PieceText, Bared, ChainText, Joined;
    BaredText(c, m, w, 0);
    if |w| > 1 {
      ChainTextIsJoined(c, m, w, |w|);
      NothingJoined(c, m, w);
    }
  }

  lemma NothingJoined(c: Config, m: seq<byte>, w: seq<Piece>)
    requires AllFit(w, |m|)
    ensures Bared(c, m, w)[..|w|] == Bared(c, m, w)
    ensures ChainText(m, Bared(c, m, w)) + Joined(c, m, w[|w|..]) == ChainText(m, Bared(c, m, w))
  {
  }

  /** Removing quotes and coalescing leaves one node for each word, and its text is the word's. */
  lemma {:induction false} WhatIsLeft(c: Config, m: seq<byte>, ws: seq<seq<Piece>>)
    requires WordsFit(ws, |m|) && AllIn(AllViews(ws), |m|)
    ensures NodeTexts(m, Coalesced(m, RemovedAll(c, m, AllViews(ws)))) == Texts(c, m, ws)
    decreases |ws|
  {
    hide Bared, WordText, NodeText, Merged, Removed;
    if ws != [] {
      var w, rest := ws[0], ws[1..];
      AllViewsIn(rest, |m|);
      WhatIsLeft(c, m, rest);
      WordMerged(c, m, w);
      RemovedParts(c, m, w, rest);
      CoalescedFirst(c, m, w, RemovedAll(c, m, AllViews(rest)));
    }
  }

  lemma RemovedParts(c: Config, m: seq<byte>, w: seq<Piece>, rest: seq<seq<Piece>>)
    requires AllFit(w, |m|) && AllIn(AllViews(rest), |m|)
    ensures AllIn(WordViews(w) + AllViews(rest), |m|)
    ensures RemovedAll(c, m, WordViews(w) + AllViews(rest)) == Bared(c, m, w) + RemovedAll(c, m, AllViews(rest))
  {
  }

  lemma CoalescedFirst(c: Config, m: seq<byte>, w: seq<Piece>, rest: seq<View>)
    requires AllFit(w, |m|) && w != [] && AllIn(rest, |m|)
    ensures AllIn(Bared(c, m, w) + rest, |m|)
    ensures Coalesced(m, Bared(c, m, w) + rest) == [Merged(m, Bared(c, m, w))] + Coalesced(m, rest)
  {
    hide Bared, Merged;
    var vs := Bared(c, m, w);
    WordChain(c, m, w, 0, rest);
    assert vs[0..] == vs && (vs + rest)[..|w|] == vs && (vs + rest)[|w|..] == rest;
  }

  // ---- the list ----

  class Node {
    var prev: Node?
    var next: Node?
    var flags: Flags
    var v: Value

    constructor (flags: Flags, v: Value)
      ensures this.flags == flags && this.v == v && prev == null && next == null
    {
      prev, next := null, null;
      this.flags, this.v := flags, v;
    }

    function Get(): View
      reads this`flags, this`v
    {
      View(flags, v)
    }
  }

  ghost function Views(ns: seq<Node>): (r: seq<View>)
    reads ns`flags, ns`v
    ensures |r| == |ns| && forall i :: 0 <= i < |ns| ==> r[i] == ns[i].Get()
  {
    if ns == [] then [] else Views(ns[..|ns| - 1]) + [ns[|ns| - 1].Get()]
  }

  /** No segment of these words overflows into the byte behind the text. */
  predicate NoneOverflows(c: Config, m: seq<byte>, n: nat, ws: seq<seq<Piece>>)
    requires n <= |m|
  {
    forall k :: 0 <= k < |ws| ==> forall j :: 0 <= j < |ws[k]| ==> !Overflows(c, m, n, ws[k][j])
  }

  /** What keeps quote removal within its buffers. It holds when the byte behind the text is NUL. */
  predicate TextEnds(c: Config, m: seq<byte>, n: nat)
    requires n <= |m|
  {
    var r := Words(c, m, n, 0);
    c.quote && r.Fine? ==> NoneOverflows(c, m, n, r.value)
  }

  datatype Errno = Eof | Quote

  datatype Rc = RcEof | RcOk | RcErr

  /** struct wordsplit for one call of wordsplit_len. */
  class Splitter {
    const c: Config
    const command: array<byte>   // ws_input, with whatever memory follows the text
    const len: nat               // ws_len
    ghost const text: seq<byte>
    var head: Node?
    var tail: Node?
    ghost var nodes: seq<Node>
    var endp: nat
    var errno: Errno
    var wordv: seq<seq<byte>>

    /** wordsplit_init */
    constructor (c: Config, command: array<byte>, len: nat)
      requires len <= command.Length && ScansSafely(c, command[..], len) && TextEnds(c, command[..], len)
      ensures this.c == c && this.command == command && this.len == len && text == command[..]
      ensures Ready() && Linked() && nodes == [] && wordv == []
    {
      this.c, this.command, this.len, this.text := c, command, len, command[..];
      head, tail, nodes, endp, errno, wordv := null, null, [], 0, Eof, [];
    }

    ghost predicate Ready()
      reads command
    {
      command[..] == text && len <= |text| && ScansSafely(c, text, len) && TextEnds(c, text, len)
    }

    /** The list from head to tail is nodes, doubly linked. */
    ghost predicate Linked()
      reads this`head, this`tail, this`nodes, nodes`prev, nodes`next
    {
      && Unique(nodes)
      && (if nodes == [] then head == null && tail == null
          else head == nodes[0] && tail == nodes[|nodes| - 1]
               && nodes[0].prev == null && nodes[|nodes| - 1].next == null)
      && (forall i :: 0 <= i < |nodes| - 1 ==> nodes[i].next == nodes[i + 1])
      && (forall i :: 0 < i < |nodes| ==> nodes[i].prev == nodes[i - 1])
    }

    method Char(i: nat) returns (b: byte)
      requires Ready() && i < |text|
      ensures b == text[i]
    {
      b := command[i];
    }

    /** wsnode_append */
    method Append(node: Node)
      requires Linked() && node !in nodes
      modifies this`head, this`tail, this`nodes, nodes`next, node`prev, node`next
      ensures Linked() && nodes == old(nodes) + [node]
    {
      node.next := null;
      node.prev := tail;
      if tail != null {
        tail.next := node;
      } else {
        head := node;
      }
      tail := node;
      nodes := nodes + [node];
    }

    /** wordsplit_add_segm */
    method AddSegm(beg: nat, end: nat, flags: Flags, emptyOk: bool)
      requires Linked()
      modifies this`head, this`tail, this`nodes, nodes`next
      ensures Linked() && Grown()
      ensures Views(nodes) == old(Views(nodes)) + if beg == end && !emptyOk then [] else [View(flags, Segm(beg, end))]
    {
      hide Linked;
      if beg == end && !emptyOk {
        assert Views(nodes) + [] == Views(nodes);
        return;
      }
      var node := new Node(flags, Segm(beg, end));
      Append(node);
      assert nodes[..|nodes| - 1] == old(nodes);
    }

    /** Nodes have only been added. */
    twostate predicate Grown()
      reads this`nodes
    {
      forall i :: 0 <= i < |nodes| ==> nodes[i] in old(nodes) || fresh(nodes[i])
    }

    /** The last node of the list is to be joined with what comes. */
    method JoinTail()
      requires Linked() && tail != null
      modifies nodes`flags
      ensures nodes != [] && Views(nodes) == old(Views(nodes))[|nodes| - 1 := old(Views(nodes))[|nodes| - 1].(
                flags := old(Views(nodes))[|nodes| - 1].flags.(join := true))]
    {
      tail.flags := tail.flags.(join := true);
    }

    // ---- scanning ----

    /** Quotes seen so far: the nodes are those of base and of the pieces of this word. */
    ghost predicate Holding(base: seq<View>, w: seq<Piece>)
      reads this`head, this`tail, this`nodes, nodes`prev, nodes`next, nodes`flags, nodes`v
    {
      Linked() && Views(nodes) == base + WordViews(w)
    }

    /** If the word already has pieces, which is what join says, its last node is to be joined with what comes. */
    method JoinOn(join: bool, ghost base: seq<View>, ghost w: seq<Piece>)
      requires Holding(base, w) && (join <==> w != [])
      modifies nodes`flags
      ensures Linked() && Views(nodes) == base + Joining(w)
    {
      hide Linked;
      if join {
        JoinLast(base, w);
        TailThere();
        if tail != null {
          JoinTail();
        }
      }
    }

    lemma TailThere()
      requires Linked() && nodes != []
      ensures tail != null
    {
    }

    /** scan_qstring: err reports a missing closing quote. */
    method ScanQString(start: nat) returns (end: nat, err: bool)
      requires Ready() && Linked() && start < len && c.IsQuote(text[start])
      modifies this`head, this`tail, this`nodes, this`endp, this`errno, nodes`next
      ensures Linked() && Grown()
      ensures var q := text[start]; var j := QuoteEnd(text, len, q, start + 1);
              if j == len then err && errno == Quote && endp == start
              else !err && end == j && errno == old(errno) && endp == old(endp)
                   && Views(nodes) == old(Views(nodes)) + [Seen(Piece(KindOf(q), start + 1, j), false)]
    {
      hide Linked, QuoteEnd, Views, TextEnds, ScansSafely;
      var q := Char(start);
      var j := FindQuote(start, q);
      if j < len {
        AddSegm(start + 1, j, Flags(true, q == SQUOTE, false), true);
        return j, false;
      }
      endp, errno := start, Quote;
      return j, true;
    }

    /** The loop of scan_qstring. */
    method FindQuote(start: nat, q: byte) returns (j: nat)
      requires Ready() && start < len
      ensures j < len <==> QuoteEnd(text, len, q, start + 1) < len
      ensures j < len ==> j == QuoteEnd(text, len, q, start + 1)
    {
      hide QuoteEnd;
      j := start + 1;
      while j < len
        invariant start < j && QuoteEnd(text, len, q, start + 1) == QuoteEnd(text, len, q, j)
      {
        QuoteEndStep(j, q);
        var b := Char(j);
        if b == q {
          return;
        }
        if q == DQUOTE && b == BACKSLASH {
          j := j + 1;
        }
        j := j + 1;
      }
      QuoteEndStep(j, q);
    }

    lemma QuoteEndStep(j: nat, q: byte)
      requires len <= |text|
      ensures var e := QuoteEnd(text, len, q, j);
              if j >= len then e == len
              else if text[j] == q then e == j
              else if q == DQUOTE && text[j] == BACKSLASH then e == QuoteEnd(text, len, q, j + 2)
              else e == QuoteEnd(text, len, q, j + 1)
    {
    }

    /** The plain text before a quote at i, joined to what comes. */
    method PlainBefore(start: nat, i: nat, join: bool, ghost base: seq<View>, ghost w: seq<Piece>)
      requires Holding(base, w) && (join <==> w != []) && start <= i
      modifies this`head, this`tail, this`nodes, nodes`next, nodes`flags
      ensures Linked() && Grown() && Views(nodes) == base + Joining(w + Head(start, i))
    {
      hide Linked, Views, WordViews, Joining;
      PartViews(base, w, start, i);
      JoinOn(join, base, w);
      AddSegm(start, i, Flags(false, false, true), false);
    }

    /** A quote at i inside a word: the plain text before it, then the quoted text. */
    method QuotedPart(start: nat, i: nat, join: bool, ghost base: seq<View>, ghost w: seq<Piece>)
      returns (end: nat, err: bool, ghost w': seq<Piece>)
      requires Ready() && Holding(base, w) && (join <==> w != [])
      requires start <= i < len && c.IsQuote(text[i]) && PlainEnd(c, text, len, start) == i
      modifies this`head, this`tail, this`nodes, this`endp, this`errno, nodes`next, nodes`flags
      ensures Linked() && Grown()
      ensures var r := ScanRest(c, text, len, start);
              if err then r == Unclosed(i) && errno == Quote && endp == i
              else i < end < len && end == QuoteEnd(text, len, text[i], i + 1) && text[end] == text[i]
                   && w' != [] && errno == old(errno) && endp == old(endp)
                   && Holding(base, w')
                   && r.After(w) == if c.IsDelim(text[i]) then Torn(w', end)
                                    else ScanRest(c, text, len, end + 1).After(w')
    {
      hide Linked, QuoteEnd, PlainEnd, ScanRest, Config.IsQuote, Config.IsDelim, ScansSafely, TextEnds;
      hide WordViews, Joining, Scan.After, Seen, KindOf, Views;
      QuotedScan(c, text, len, start, i, w);
      w' := w;
      PlainBefore(start, i, join, base, w);
      end, err := ScanQString(i);
      if !err {
        ghost var p := Piece(KindOf(text[i]), i + 1, end);
        JoiningMore(base, w + Head(start, i), p);
        w' := w + Head(start, i) + [p];
      }
    }

    /**
     * The end of a word: the plain text that is left, if any, or nothing at a gap. Behind the closing
     * quote of a torn word, where start is past i, what is left ends before it begins.
     */
    method LastPart(start: nat, i: nat, join: bool, emptyOk: bool, ghost base: seq<View>, ghost w: seq<Piece>)
      requires Holding(base, w) && (join <==> w != []) && (emptyOk ==> !join && start == i)
      requires start <= i || (start == i + 1 && w != [])
      modifies this`head, this`tail, this`nodes, nodes`next, nodes`flags
      ensures Linked() && Grown() && Views(nodes) == base + AllViews(Ended(w, start, i, emptyOk).Listed())
    {
      hide Linked, Views, WordViews, Joining, Seen, AllViews, Scan.Listed;
      LastViews(base, w, start, i, emptyOk);
      if join && i > start {
        JoinOn(join, base, w);
      }
      AddSegm(start, i, PLAIN, emptyOk);
    }

    /** The loop of scan_word over a word that does not start at a delimiter. */
    method ScanText(start0: nat) returns (start: nat, i: nat, join: bool, err: bool, ghost w: seq<Piece>)
      requires Ready() && Linked() && start0 <= len
      modifies this`head, this`tail, this`nodes, this`endp, this`errno, nodes`next, nodes`flags
      ensures Linked() && Grown()
      ensures err ==> ScanRest(c, text, len, start0) == Unclosed(endp) && errno == Quote
      ensures !err ==> i <= len && (start <= i || (start == i + 1 && w != [])) && (join <==> w != [])
      ensures !err ==> ScanRest(c, text, len, start0) == Ended(w, start, i, false)
      ensures !err ==> Holding(old(Views(nodes)), w) && errno == old(errno)
    {
      hide Holding, Linked, Views, WordViews, PlainEnd, ScanRest, QuoteEnd, Config.IsDelim, Scan.After, Head;
      hide ScansSafely, TextEnds;
      start, i, join, err, w := start0, start0, false, false, [];
      ghost var base := Views(nodes);
      NothingYet(base, ScanRest(c, text, len, start0));
      Begin();
      while i < len
        invariant start0 <= start <= i <= len && PlainEnd(c, text, len, start) == PlainEnd(c, text, len, i)
        invariant Holding(base, w) && (join <==> w != []) && Grown() && errno == old(errno) && !err
        invariant ScanRest(c, text, len, start0) == ScanRest(c, text, len, start).After(w)
      {
        PlainEndStep(c, text, len, i);
        var b := Char(i);
        if c.quote && b == BACKSLASH {
          i := i + 1;
          if i == len {
            break;
          }
          i := i + 1;
          continue;
        }
        if c.quote && (b == SQUOTE || b == DQUOTE) {
          ghost var before := w;
          i, err, w := QuotedPart(start, i, join, base, w);
          if err {
            AfterEnd(before, [], endp);
            return;
          }
          start, join := i + 1, true;
          b := Char(i);
        }
        if c.IsDelim(b) {
          break;
        }
        i := i + 1;
      }
      if start <= i {
        PlainEndStep(c, text, len, i);
        PlainLast(c, text, len, start, i);
        AfterEnd(w, Head(start, i), i);
      }
      HeldIsLinked(base, w);
    }

    lemma Begin()
      requires Linked()
      ensures Holding(Views(nodes), [])
    {
      NothingYet(Views(nodes), Unclosed(0));
    }

    lemma HeldIsLinked(base: seq<View>, w: seq<Piece>)
      requires Holding(base, w)
      ensures Linked()
    {
    }

    /** scan_word */
    method ScanWord(start: nat) returns (rc: Rc)
      requires Ready() && Linked()
      modifies this`head, this`tail, this`nodes, this`endp, this`errno, nodes`next, nodes`flags
      ensures Linked() && Grown()
      ensures start >= len ==> rc == RcEof && errno == Eof && Views(nodes) == old(Views(nodes))
      ensures start < len ==>
                var s := Splitting.ScanWord(c, text, len, start);
                if s.Unclosed? then rc == RcErr && errno == Quote && endp == s.at
                else && rc == RcOk && errno == old(errno) && endp == s.endp
                     && Views(nodes) == old(Views(nodes)) + AllViews(s.Listed())
    {
      hide Linked, Views, WordViews, AllViews, ScanRest, Config.IsDelim, Head, ScansSafely, TextEnds;
      hide Splitting.SkipDelim, Scan.Listed;
      if start >= len {
        errno := Eof;
        return RcEof;
      }
      ghost var base, w: seq<Piece> := Views(nodes), [];
      var from, i, join, emptyOk := start, start, false, false;
      var b := Char(i);
      if !c.IsDelim(b) {
        var err;
        from, i, join, err, w := ScanText(start);
        if err {
          return RcErr;
        }
      } else {
        emptyOk := !c.squeeze;
        NothingYet(base, Scanned([], i));
        NoPieces(w, start);
      }
      LastPart(from, i, join, emptyOk, base, w);
      endp := i;
      rc := RcOk;
    }

    /** skip_delim */
    method SkipDelim() returns (start: nat)
      requires Ready() && endp <= len
      ensures start == Splitting.SkipDelim(c, text, len, endp)
    {
      start := endp;
      if c.squeeze {
        start := start + 1;
        while start < len
          invariant endp < start && (endp < len ==> start <= len)
          invariant endp < len ==> DelimEnd(c, text, len, endp + 1) == DelimEnd(c, text, len, start)
          invariant endp == len ==> start == len + 1
        {
          var b := Char(start);
          if !c.IsDelim(b) {
            break;
          }
          start := start + 1;
        }
        start := start - 1;
      }
      start := start + 1;
    }

    /** Scanning has reached start, and the words before it are ws. */
    ghost predicate Reached(ws: seq<seq<Piece>>, start: nat)
      reads command, this`head, this`tail, this`nodes, nodes`prev, nodes`next, nodes`flags, nodes`v
    {
      && Ready() && Linked() && Views(nodes) == AllViews(ws)
      && (WordsFit(ws, len) ==> ListOk(Views(nodes), Least(start, len)))
      && Words(c, text, len, 0) == Prefixed(ws, Words(c, text, len, start))
    }

    /** One turn of the scanning loop. */
    method NextWord(start: nat, ghost ws: seq<seq<Piece>>) returns (rc: Rc, ghost ws': seq<seq<Piece>>)
      requires Reached(ws, start)
      modifies this`head, this`tail, this`nodes, this`endp, this`errno, nodes`next, nodes`flags
      ensures Ready() && Linked() && Grown()
      ensures rc == RcEof ==> errno == Eof && Views(nodes) == AllViews(ws') && Words(c, text, len, 0) == Fine(ws')
      ensures rc == RcEof ==> ListOk(Views(nodes), len)
      ensures rc == RcErr ==> errno == Quote && Words(c, text, len, 0) == BadQuote(endp)
      ensures rc == RcOk ==> start <= endp <= len && Reached(ws', Splitting.SkipDelim(c, text, len, endp))
    {
      hide Ready, Linked, Views, Words, AllViews, WordViews, Splitting.ScanWord, Splitting.SkipDelim, ListOk;
      assert len <= |text| by { InMemory(); }
      rc := ScanWord(start);
      ws' := ws;
      if start >= len {
        NoMoreWords(c, text, len, start, ws);
      } else {
        ScanWordEnds(c, text, len, start);
        var s := Splitting.ScanWord(c, text, len, start);
        WordsStep(c, text, len, start, ws);
        if rc == RcOk {
          ws' := ws + s.Listed();
          AllViewsMore(ws, s.Listed());
          ScanWordInOrder(c, text, len, start);
          ListedInOrder(ws, s, start, Least(Splitting.SkipDelim(c, text, len, endp), len), len);
        } else {
          assert s.Unclosed?;
        }
      }
      if rc == RcEof {
        FineIsOrdered(ws);
      }
    }

    /** Where the words end: they are those of a safe text. */
    lemma FineIsOrdered(ws: seq<seq<Piece>>)
      requires Ready() && Words(c, text, len, 0) == Fine(ws)
      ensures WordsFit(ws, len)
    {
      WordsInOrder(c, text, len, 0);
    }

    lemma InMemory()
      requires Ready()
      ensures len <= |text|
    {
    }

    /** The scanning loop of wordsplit_len; then the tail is made not joinable, which it never is. */
    method ScanAll() returns (ok: bool, ghost ws: seq<seq<Piece>>)
      requires Ready() && Linked() && nodes == []
      modifies this`head, this`tail, this`nodes, this`endp, this`errno
      ensures Linked() && Grown()
      ensures ok ==> errno == Eof && Words(c, text, len, 0) == Fine(ws) && Views(nodes) == AllViews(ws)
      ensures ok ==> ListOk(Views(nodes), len)
      ensures !ok ==> errno == Quote && Words(c, text, len, 0) == BadQuote(endp)
    {
      hide Ready, Linked, Views, Words, AllViews, WordViews, Splitting.SkipDelim, ListOk;
      Start();
      var rc;
      rc, ws := NextWord(0, []);
      InMemory();
      while rc == RcOk
        invariant Ready() && Linked() && Grown() && len <= |text|
        invariant rc == RcEof ==> errno == Eof && Views(nodes) == AllViews(ws) && Words(c, text, len, 0) == Fine(ws)
        invariant rc == RcEof ==> ListOk(Views(nodes), len)
        invariant rc == RcErr ==> errno == Quote && Words(c, text, len, 0) == BadQuote(endp)
        invariant rc == RcOk ==> endp <= len && Reached(ws, Splitting.SkipDelim(c, text, len, endp))
        decreases if rc == RcOk then len + 1 - endp else 0
      {
        var start := SkipDelim();
        rc, ws := NextWord(start, ws);
      }
      ok := rc == RcEof;
      if ok {
        UnjoinTail(ws);
      }
    }

    lemma Start()
      requires Ready() && Linked() && nodes == []
      ensures Reached([], 0)
    {
      PrefixedByNone(Words(c, text, len, 0));
    }

    /** The last node of the list is not joinable. It never was, so nothing changes. */
    method UnjoinTail(ghost ws: seq<seq<Piece>>)
      requires Ready() && Linked() && Views(nodes) == AllViews(ws) && Words(c, text, len, 0) == Fine(ws)
      modifies nodes`flags
      ensures Views(nodes) == old(Views(nodes))
    {
      hide Words, AllViews, WordViews;
      WordsInOrder(c, text, len, 0);
      AllViewsIn(ws, len);
      if tail != null {
        tail.flags := tail.flags.(join := false);
      }
    }

    // ---- quote removal ----

    /** The body of wsnode_quoteremoval for one node; newstr has room for the whole text. */
    method Unquote(p: Node)
      requires Ready() && InText(p.Get(), len) && Unquotes(c, p.Get())
      requires |RawText(c, text, p.v.beg, p.v.end)| <= p.v.end - p.v.beg
      modifies p`v
      ensures p.Get() == Removed(c, text, old(p.Get()))
    {
      hide Quoting.CUnquote, Quoting.ShUnquote, CString;
      var beg, end := p.v.beg, p.v.end;
      var newstr := new byte[end - beg + 1];
      ghost var was := newstr[..];
      ghost var r := RawText(c, text, beg, end);
      if c.cescapes {
        Quoting.CUnquoteCopy(newstr, command, beg, end - beg);
      } else {
        Quoting.ShUnquoteCopy(newstr, command, beg, end - beg);
      }
      assert newstr[..] == r + [NUL] + was[|r| + 1..];
      CStringInBuffer(r, was[|r| + 1..]);
      p.v := Word(CString(newstr[..]));
    }

    /** wsnode_quoteremoval */
    method QuoteRemoval()
      requires Ready() && Linked() && AllIn(Views(nodes), len) && Roomy(c, text, Views(nodes))
      modifies nodes`v
      ensures Views(nodes) == RemovedAll(c, text, old(Views(nodes)))
    {
      hide RawText, Unquoted, Views;
      var p := head;
      ghost var k := 0;
      ghost var ns, vs := nodes, Views(nodes);
      while p != null
        invariant k <= |ns| && p == if k < |ns| then ns[k] else null
        invariant forall i :: 0 <= i < k ==> ns[i].Get() == Removed(c, text, vs[i])
        invariant forall i :: k <= i < |ns| ==> ns[i].Get() == vs[i]
        decreases |ns| - k
      {
        if c.quote && !p.flags.noexpand && p.v.Segm? {
          Unquote(p);
        }
        p := p.next;
        k := k + 1;
      }
    }

    // ---- coalescing ----

    /** wsnode_remove: taking the tail off also unjoins its predecessor. */
    method Remove(node: Node, ghost j: nat)
      requires Linked() && j < |nodes| && nodes[j] == node
      modifies this`head, this`tail, this`nodes, nodes`prev, nodes`next, nodes`flags
      ensures Linked() && nodes == Without(old(nodes), j)
      ensures forall i :: 0 <= i < |old(nodes)| && i + 1 != j ==> old(nodes)[i].flags == old(nodes[i].flags)
      ensures 0 < j < |old(nodes)| - 1 ==> old(nodes)[j - 1].flags == old(nodes[j - 1].flags)
      ensures 0 < j == |old(nodes)| - 1 ==> old(nodes)[j - 1].flags == old(nodes[j - 1].flags.(join := false))
    {
      hide Unique, Without;
      UniqueWithout(nodes, j);
      WithoutAt(nodes, j);
      OthersDiffer(nodes, j);
      if j > 0 {
        OthersDiffer(nodes, j - 1);
      }
      if j + 1 < |nodes| {
        OthersDiffer(nodes, j + 1);
      }
      assert nodes[j].prev == (if j == 0 then null else nodes[j - 1]);
      assert nodes[j].next == (if j == |nodes| - 1 then null else nodes[j + 1]);
      var p := node.prev;
      if p != null {
        p.next := node.next;
        if node.next == null {
          p.flags := p.flags.(join := false);
        }
      } else {
        head := node.next;
      }
      p := node.next;
      if p != null {
        p.prev := node.prev;
      } else {
        tail := node.prev;
      }
      node.next, node.prev := null, null;
      nodes := Without(nodes, j);
    }

    lemma NextOf(i: nat)
      requires Linked() && i < |nodes|
      ensures nodes[i].next == if i + 1 < |nodes| then nodes[i + 1] else null
    {
    }

    /** The first loop of coalesce_segment: the last node of the chain. */
    method ChainLast(node: Node, ghost k: nat) returns (end: Node, ghost l: nat)
      requires Linked() && k < |nodes| && nodes[k] == node && Closed(Views(nodes))
      ensures l == ChainLength(Views(nodes)[k..]) && k + l <= |nodes| && end == nodes[k + l - 1]
    {
      hide ChainLength, Closed, Linked;
      end := node;
      l := 1;
      ghost var vs := Views(nodes);
      while end.flags.join
        invariant 1 <= l && k + l <= |nodes| && end == nodes[k + l - 1]
        invariant ChainLength(vs[k..]) == l - 1 + ChainLength(vs[k + l - 1..])
        decreases |nodes| - l
      {
        ChainStep(vs, k + l - 1);
        NextOf(k + l - 1);
        end := end.next;
        l := l + 1;
      }
      ChainStep(vs, k + l - 1);
    }

    /** wsnode_ptr and wsnode_len, copied: what memcpy adds to the buffer. */
    method Copy(p: Node) returns (t: seq<byte>)
      requires Ready() && InText(p.Get(), len)
      ensures t == NodeText(text, p.Get())
    {
      match p.v
      case Segm(beg, end) => t := command[beg..end];
      case Word(word) => t := word;
    }

    /** While a chain at k is merged: the nodes from k + 1 up to q are gone, and buf has their text. */
    ghost predicate Merging(ns: seq<Node>, vs: seq<View>, k: nat, q: nat, buf: seq<byte>)
      reads command, this`head, this`tail, this`nodes, nodes`prev, nodes`next, ns`flags, ns`v
    {
      && Ready() && Linked() && k < q <= |ns| == |vs| && nodes == ns[..k + 1] + ns[q..]
      && AllIn(vs, len) && buf == ChainText(text, vs[k..q])
      && (forall i :: 0 <= i < |ns| && i != k ==> ns[i].Get() == vs[i])
      && ns[k].v == vs[k].v && ns[k].flags.(join := false) == vs[k].flags.(join := false)
    }

    /** One turn of the copying loop: p's text is taken over and p goes. */
    method MergeOne(p: Node, buf: seq<byte>, ghost ns: seq<Node>, ghost vs: seq<View>, ghost k: nat, ghost q: nat)
      returns (buf': seq<byte>)
      requires Unique(ns) && Merging(ns, vs, k, q, buf) && q < |ns| && p == ns[q]
      modifies this`head, this`tail, this`nodes, nodes`prev, nodes`next, nodes`flags
      ensures Merging(ns, vs, k, q + 1, buf')
    {
      hide Linked, ChainText;
      ghost var vs' := vs;
      assert p.Get() == vs[q];
      var t := Copy(p);
      assert nodes[k + 1] == p;
      ghost var before := nodes;
      Remove(p, k + 1);
      buf' := buf + t;
      ChainMore(text, vs, k, q);
      assert nodes == ns[..k + 1] + ns[q + 1..];
      forall i | 0 <= i < |ns| && i != k
        ensures ns[i].flags == old(ns[i].flags)
      {
        if i < k {
          assert before[i] == ns[i];
        } else if q <= i {
          assert before[i - q + k + 1] == ns[i];
        }
      }
      assert before[k] == ns[k];
    }

    /** The copying loop of coalesce_segment, from the second node of the chain on. */
    method MergeRest(node: Node, end: Node, buf0: seq<byte>, ghost k: nat, ghost l: nat,
                     ghost ns: seq<Node>, ghost vs: seq<View>)
      returns (buf: seq<byte>)
      requires Unique(ns) && Merging(ns, vs, k, k + 1, buf0) && nodes == ns
      requires node == ns[k] && 2 <= l && k + l <= |ns| && end == ns[k + l - 1]
      modifies this`head, this`tail, this`nodes, nodes`prev, nodes`next, nodes`flags
      ensures Merging(ns, vs, k, k + l, buf)
    {
      hide Merging, Linked;
      MergingList(ns, vs, k, k + 1, buf0);
      buf := buf0;
      var p, stop := node.next, false;
      ghost var q := k + 1;
      while !stop
        invariant k < q <= k + l && Merging(ns, vs, k, q, buf)
        invariant if stop then q == k + l else q < k + l && p == ns[q]
        decreases k + l - q, !stop
      {
        MergingList(ns, vs, k, q, buf);
        var next := p.next;
        buf := MergeOne(p, buf, ns, vs, k, q);
        stop := p == end;
        p := next;
        q := q + 1;
      }
    }

    lemma MergingList(ns: seq<Node>, vs: seq<View>, k: nat, q: nat, buf: seq<byte>)
      requires Merging(ns, vs, k, q, buf)
      ensures forall i :: 0 <= i < |nodes| ==> nodes[i] in ns
      ensures ns[k].next == if q < |ns| then ns[q] else null
      ensures q < |ns| ==> ns[q].next == if q + 1 < |ns| then ns[q + 1] else null
    {
      NextOf(k);
      assert nodes[k] == ns[k];
      if q < |ns| {
        assert nodes[k + 1] == ns[q];
        NextOf(k + 1);
        if q + 1 < |ns| {
          assert nodes[k + 2] == ns[q + 1];
        }
      }
    }

    /** coalesce_segment up to the loops' end: the chain's text is in buf and its other nodes are gone. */
    method GatherChain(node: Node, ghost k: nat) returns (buf: seq<byte>, ghost l: nat)
      requires Ready() && Linked() && k < |nodes| && nodes[k] == node && node.flags.join
      requires Closed(Views(nodes)) && AllIn(Views(nodes), len)
      modifies this`head, this`tail, this`nodes, nodes`prev, nodes`next, nodes`flags
      ensures 2 <= l == ChainLength(old(Views(nodes))[k..]) && k + l <= |old(nodes)|
      ensures Merging(old(nodes), old(Views(nodes)), k, k + l, buf)
    {
      hide Linked, Merging, Closed, Unique, AllIn, NodeText;
      ghost var ns, vs := nodes, Views(nodes);
      var end;
      end, l := ChainLast(node, k);
      LongChain(vs, k);
      InTextAt(k);
      buf := Copy(node);
      StartMerging(k, buf);
      buf := MergeRest(node, end, buf, k, l, ns, vs);
    }

    lemma InTextAt(k: nat)
      requires k < |nodes| && AllIn(Views(nodes), len)
      ensures InText(nodes[k].Get(), len)
    {
      assert Views(nodes)[k] == nodes[k].Get();
    }

    /** The list without the nodes from k + 1 up to q, with a new value at k. */
    lemma SplicedViews(ns: seq<Node>, vs: seq<View>, v: View, k: nat, q: nat)
      requires k < q <= |ns| == |vs| && nodes == ns[..k + 1] + ns[q..]
      requires ns[k].Get() == v && forall i :: 0 <= i < |ns| && i != k ==> ns[i].Get() == vs[i]
      ensures Views(nodes) == vs[..k] + [v] + vs[q..]
    {
    }

    /** The end of coalesce_segment: the first node of the chain becomes a word. */
    method SetWord(node: Node, buf: seq<byte>, ghost k: nat, ghost l: nat, ghost ns: seq<Node>, ghost vs: seq<View>)
      requires Ready() && 2 <= l && k + l <= |ns| == |vs| && nodes == ns[..k + 1] + ns[k + l..] && node == ns[k]
      requires Unique(ns) && forall i :: 0 <= i < |ns| && i != k ==> ns[i].Get() == vs[i]
      requires ns[k].flags.(join := false) == vs[k].flags.(join := false)
      requires AllIn(vs, len) && l == ChainLength(vs[k..]) && buf == ChainText(text, vs[k..k + l])
      modifies node`flags, node`v
      ensures Views(nodes) == ChainMerged(text, vs, k)
      ensures k < |nodes| && nodes[k] == node
    {
      hide CString, ChainText, ChainLength, ChainMerged, AllIn;
      MergedChain(text, vs, k, l, len);
      node.flags := node.flags.(join := false);
      node.v := Word(CString(buf));
      SplicedViews(ns, vs, node.Get(), k, k + l);
    }

    /** coalesce_segment */
    method CoalesceSegment(node: Node, ghost k: nat)
      requires Ready() && Linked() && k < |nodes| && nodes[k] == node && node.flags.join
      requires Closed(Views(nodes)) && AllIn(Views(nodes), len)
      modifies this`head, this`tail, this`nodes, nodes`prev, nodes`next, nodes`flags, nodes`v
      ensures Linked() && forall i :: 0 <= i < |nodes| ==> nodes[i] in old(nodes)
      ensures k < |nodes| && nodes[k] == node
      ensures Views(nodes) == ChainMerged(text, old(Views(nodes)), k)
    {
      hide ChainMerged, Linked, Merging, Closed, AllIn, ChainLength, ChainText, Merged, NodeText, CString, Unique;
      ghost var ns, vs := nodes, Views(nodes);
      ghost var l;
      NoTwice();
      var buf;
      buf, l := GatherChain(node, k);
      AfterMerging(ns, vs, k, k + l, buf);
      SetWord(node, buf, k, l, ns, vs);
    }

    lemma StartMerging(k: nat, buf: seq<byte>)
      requires Ready() && Linked() && k < |nodes| && AllIn(Views(nodes), len) && buf == NodeText(text, nodes[k].Get())
      ensures Merging(nodes, Views(nodes), k, k + 1, buf) && Unique(nodes)
    {
      hide Linked;
      assert Unique(nodes) by { NoTwice(); }
      var vs := Views(nodes);
      assert nodes == nodes[..k + 1] + nodes[k + 1..];
      ChainMore(text, vs, k, k);
      assert vs[k..k] == [];
      assert ChainText(text, []) + buf == buf;
    }

    lemma NoTwice()
      requires Linked()
      ensures Unique(nodes)
    {
    }

    lemma AfterMerging(ns: seq<Node>, vs: seq<View>, k: nat, q: nat, buf: seq<byte>)
      requires Merging(ns, vs, k, q, buf)
      ensures Linked() && nodes == ns[..k + 1] + ns[q..] && buf == ChainText(text, vs[k..q])
      ensures forall i :: 0 <= i < |nodes| ==> nodes[i] in ns
      ensures forall i :: 0 <= i < |ns| && i != k ==> ns[i].Get() == vs[i]
      ensures ns[k].flags.(join := false) == vs[k].flags.(join := false)
    {
    }

    /** wsnode_coalesce has reached the node at k, and will end with target. */
    ghost predicate Coalescing(ns: seq<Node>, k: nat, target: seq<View>)
      reads command, this`head, this`tail, this`nodes, nodes`prev, nodes`next, nodes`flags, nodes`v
    {
      && Ready() && Linked() && (forall i :: 0 <= i < |nodes| ==> nodes[i] in ns) && k <= |nodes|
      && AllIn(Views(nodes), len) && Closed(Views(nodes))
      && Views(nodes)[..k] + Coalesced(text, Views(nodes)[k..]) == target
    }

    /** One turn of wsnode_coalesce. */
    method CoalesceOne(p: Node, ghost k: nat, ghost ns: seq<Node>, ghost target: seq<View>) returns (next: Node?)
      requires Coalescing(ns, k, target) && k < |nodes| && p == nodes[k]
      modifies this`head, this`tail, this`nodes, nodes`prev, nodes`next, nodes`flags, nodes`v
      ensures Coalescing(ns, k + 1, target) && next == if k + 1 < |nodes| then nodes[k + 1] else null
      ensures |nodes| <= |old(nodes)|
    {
      hide Linked, Closed, AllIn, Coalesced, Views, ChainMerged;
      CoalesceStep(text, Views(nodes), k, len);
      if p.flags.join {
        CoalesceSegment(p, k);
      }
      NextOf(k);
      next := p.next;
    }

    /** wsnode_coalesce: one node is left for each JOIN chain. */
    method Coalesce()
      requires Ready() && Linked() && Closed(Views(nodes)) && AllIn(Views(nodes), len)
      modifies this`head, this`tail, this`nodes, nodes`prev, nodes`next, nodes`flags, nodes`v
      ensures Linked() && Views(nodes) == Coalesced(text, old(Views(nodes)))
      ensures forall i :: 0 <= i < |nodes| ==> nodes[i] in old(nodes)
      ensures AllIn(Views(nodes), len)
    {
      hide Coalescing, Closed, AllIn, Coalesced, Linked;
      AllInMore(Views(nodes), len, |text|);
      ghost var ns, target, k := nodes, Coalesced(text, Views(nodes)), 0;
      StartCoalescing();
      var p := head;
      while p != null
        invariant Coalescing(ns, k, target) && p == (if k < |nodes| then nodes[k] else null)
        invariant k <= |nodes| && forall i :: 0 <= i < |nodes| ==> nodes[i] in ns
        decreases |nodes| - k
      {
        p := CoalesceOne(p, k, ns, target);
        k := k + 1;
        CoalescingList(ns, k, target);
      }
      EndCoalescing(ns, target);
    }

    lemma StartCoalescing()
      requires Ready() && Linked() && Closed(Views(nodes)) && AllIn(Views(nodes), len)
      ensures Coalescing(nodes, 0, Coalesced(text, Views(nodes))) && head == if nodes == [] then null else nodes[0]
    {
      hide Coalesced;
      var vs := Views(nodes);
      assert vs[0..] == vs && vs[..0] + Coalesced(text, vs) == Coalesced(text, vs);
    }

    lemma CoalescingList(ns: seq<Node>, k: nat, target: seq<View>)
      requires Coalescing(ns, k, target)
      ensures k <= |nodes| && forall i :: 0 <= i < |nodes| ==> nodes[i] in ns
    {
    }

    lemma EndCoalescing(ns: seq<Node>, target: seq<View>)
      requires Coalescing(ns, |nodes|, target)
      ensures Linked() && Views(nodes) == target && AllIn(Views(nodes), len)
    {
      var vs := Views(nodes);
      assert vs[|vs|..] == [] && vs[..|vs|] + [] == vs;
    }

    // ---- the whole run ----

    /** wordsplit_finish: a copy of each node's text is added to ws_wordv. */
    method Finish()
      requires Ready() && Linked() && AllIn(Views(nodes), len)
      modifies this`wordv
      ensures wordv == old(wordv) + NodeTexts(text, Views(nodes))
    {
      hide NodeText, NodeTexts, Views, Linked, AllIn;
      AllInMore(Views(nodes), len, |text|);
      ghost var ts := NodeTexts(text, Views(nodes));
      FirstOf();
      var p := head;
      ghost var k := 0;
      while p != null
        invariant k <= |nodes| && p == (if k < |nodes| then nodes[k] else null)
        invariant wordv == old(wordv) + ts[..k]
        decreases |nodes| - k
      {
        InTextAt(k);
        var t := Copy(p);
        TextAt(k);
        OneText(old(wordv), ts, k);
        wordv := wordv + [t];
        NextOf(k);
        p := p.next;
        k := k + 1;
      }
      assert ts[..k] == ts;
    }

    lemma TextAt(k: nat)
      requires Ready() && k < |nodes| && AllIn(Views(nodes), |text|)
      ensures NodeTexts(text, Views(nodes))[k] == NodeText(text, nodes[k].Get())
    {
    }

    lemma FirstOf()
      requires Linked()
      ensures head == if nodes == [] then null else nodes[0]
    {
    }

    /** wordsplit_free_nodes */
    method FreeNodes()
      modifies this`head, this`tail, this`nodes
      ensures Linked() && nodes == []
    {
      head, tail, nodes := null, null, [];
    }

    /** The buffers that quote removal allocates are large enough. */
    lemma Room(ws: seq<seq<Piece>>)
      requires Ready() && Words(c, text, len, 0) == Fine(ws)
      ensures WordsFit(ws, len) && AllIn(AllViews(ws), len) && Closed(AllViews(ws)) && Roomy(c, text, AllViews(ws))
    {
      hide Words, RawText, Roomy, WordViews, NoneOverflows;
      WordsInOrder(c, text, len, 0);
      AllViewsIn(ws, len);
      RoomExactly(c, text, len, ws);
    }

    /** wordsplit_len after wordsplit_init */
    method WordsplitLen() returns (e: Errno)
      requires Ready() && Linked() && nodes == []
      modifies this`head, this`tail, this`nodes, this`endp, this`errno, this`wordv
      ensures e == errno && Linked() && nodes == []
      ensures match Split(c, text, len)
              case Fine(texts) => e == Eof && wordv == old(wordv) + texts
              case BadQuote(at) => e == Quote && endp == at && wordv == old(wordv)
    {
      hide Linked, Words, WordsFit, Texts, AllViews, Roomy, Views, AllIn, Closed, Coalesced, RemovedAll;
      var ok;
      ghost var ws;
      ok, ws := ScanAll();
      if ok {
        Room(ws);
        RemoveAndCoalesce(ws);
        Finish();
      }
      FreeNodes();
      e := errno;
    }

    /** Quote removal and coalescing of the nodes of ws. */
    method RemoveAndCoalesce(ghost ws: seq<seq<Piece>>)
      requires Ready() && Linked() && Views(nodes) == AllViews(ws) && WordsFit(ws, len)
      requires AllIn(AllViews(ws), len) && Closed(AllViews(ws)) && Roomy(c, text, AllViews(ws))
      modifies this`head, this`tail, this`nodes, nodes`prev, nodes`next, nodes`flags, nodes`v
      ensures Linked() && WordsFit(ws, |text|) && AllIn(Views(nodes), len)
      ensures NodeTexts(text, Views(nodes)) == Texts(c, text, ws)
      ensures forall i :: 0 <= i < |nodes| ==> nodes[i] in old(nodes)
    {
      hide Linked, AllViews, Roomy, Views, Coalesced, WordsFit, Closed, AllIn, RemovedAll, Texts, NodeTexts;
      Wider(ws, len, |text|);
      QuoteRemoval();
      RemovedStill(c, text, AllViews(ws), len);
      WhatIsLeft(c, text, ws);
      Coalesce();
    }
  }

  lemma OneText(a: seq<seq<byte>>, ts: seq<seq<byte>>, k: nat)
    requires k < |ts|
    ensures a + ts[..k] + [ts[k]] == a + ts[..k + 1]
  {
  }

  lemma Wider(ws: seq<seq<Piece>>, n: nat, n': nat)
    requires WordsFit(ws, n) && AllIn(AllViews(ws), n) && n <= n'
    ensures WordsFit(ws, n') && AllIn(AllViews(ws), n')
  {
    AllInMore(AllViews(ws), n, n');
  }

  lemma RemovedStill(c: Config, m: seq<byte>, vs: seq<View>, n: nat)
    requires AllIn(vs, n) && n <= |m| && Closed(vs)
    ensures AllIn(vs, |m|) && AllIn(RemovedAll(c, m, vs), n) && Closed(RemovedAll(c, m, vs))
  {
    hide Unquoted;
  }

  lemma NoRoomNeeded(c: Config, m: seq<byte>, vs: seq<View>)
    requires !c.quote && AllIn(vs, |m|)
    ensures Roomy(c, m, vs)
  {
  }

  lemma {:induction false} RoomForAll(c: Config, m: seq<byte>, n: nat, ws: seq<seq<Piece>>)
    requires n <= |m| && c.quote
    requires WordsFit(ws, n) && forall k :: 0 <= k < |ws| ==> AllSound(m, n, ws[k])
    ensures AllIn(AllViews(ws), |m|)
    ensures Roomy(c, m, AllViews(ws)) <==> NoneOverflows(c, m, n, ws)
    decreases |ws|
  {
    hide RawText, Paired, Overflows, WordViews;
    AllViewsIn(ws, |m|);
    if ws != [] {
      RoomForAll(c, m, n, ws[1..]);
      RoomForWord(c, m, n, ws[0]);
      RoomyParts(c, m, WordViews(ws[0]), AllViews(ws[1..]));
      assert ws == [ws[0]] + ws[1..];
    }
  }

  lemma RoomyParts(c: Config, m: seq<byte>, a: seq<View>, b: seq<View>)
    requires AllIn(a, |m|) && AllIn(b, |m|)
    ensures AllIn(a + b, |m|) && (Roomy(c, m, a + b) <==> Roomy(c, m, a) && Roomy(c, m, b))
  {
    hide RawText;
    assert forall i :: 0 <= i < |a| ==> a[i] == (a + b)[i];
    assert forall i :: 0 <= i < |b| ==> b[i] == (a + b)[|a| + i];
  }

  lemma RoomForWord(c: Config, m: seq<byte>, n: nat, w: seq<Piece>)
    requires n <= |m| && c.quote && AllFit(w, |m|) && AllSound(m, n, w)
    ensures AllIn(WordViews(w), |m|)
    ensures Roomy(c, m, WordViews(w)) <==> forall j :: 0 <= j < |w| ==> !Overflows(c, m, n, w[j])
  {
    hide RawText, Paired;
    var vs := WordViews(w);
    forall i | 0 <= i < |w| && w[i].kind != Single
      ensures |RawText(c, m, vs[i].v.beg, vs[i].v.end)| > vs[i].v.end - vs[i].v.beg <==> Overflows(c, m, n, w[i])
    {
      SoundFits(c, m, n, w[i]);
    }
  }

  /** The buffers that quote removal allocates suffice exactly when no segment overflows. */
  lemma RoomExactly(c: Config, m: seq<byte>, n: nat, ws: seq<seq<Piece>>)
    requires n <= |m| && ScansSafely(c, m, n) && Words(c, m, n, 0) == Fine(ws)
    ensures WordsFit(ws, |m|) && AllIn(AllViews(ws), |m|)
    ensures Roomy(c, m, AllViews(ws)) <==> TextEnds(c, m, n)
  {
    hide Words, RawText, Roomy, WordViews, NoneOverflows;
    WordsInOrder(c, m, n, 0);
    AllViewsIn(ws, |m|);
    if c.quote {
      WordsSound(c, m, n, 0);
      RoomForAll(c, m, n, ws);
    } else {
      NoRoomNeeded(c, m, AllViews(ws));
    }
  }

  /** A C string, whose text is followed by NUL, never overflows. */
  lemma StringEnds(c: Config, m: seq<byte>, n: nat)
    requires n <= |m| && !Quoting.Extends(Quoting.Peek(m, n))
    ensures TextEnds(c, m, n)
  {
    hide Words;
  }

  lemma AllInMore(vs: seq<View>, n: nat, n': nat)
    requires AllIn(vs, n) && n <= n'
    ensures AllIn(vs, n')
  {
  }

  lemma CoalescedStep(m: seq<byte>, vs: seq<View>)
    requires vs != [] && AllIn(vs, |m|)
    ensures var l := ChainLength(vs); Coalesced(m, vs) == [Merged(m, vs[..l])] + Coalesced(m, vs[l..])
  {
    hide ChainLength, Merged;
  }

  lemma ChainMergedKeeps(m: seq<byte>, vs: seq<View>, k: nat, n: nat)
    requires k < |vs| && Closed(vs) && AllIn(vs, n) && n <= |m| && vs[k].flags.join
    ensures AllIn(vs, |m|)
    ensures var vs' := ChainMerged(m, vs, k); AllIn(vs', n) && Closed(vs') && k < |vs'| <= |vs|
  {
    hide ChainText, CString;
    LongChain(vs, k);
  }

  /** Coalescing from k on yields the node for the chain at k, then goes on after that chain. */
  lemma CoalesceFrom(m: seq<byte>, vs: seq<View>, k: nat)
    requires k < |vs| && AllIn(vs, |m|)
    ensures var l := ChainLength(vs[k..]);
            vs[..k] + Coalesced(m, vs[k..]) == (vs[..k] + [Merged(m, vs[k..k + l])]) + Coalesced(m, vs[k + l..])
  {
    hide ChainLength, Merged, Coalesced;
    CoalescedStep(m, vs[k..]);
    var l := ChainLength(vs[k..]);
    assert vs[k..][..l] == vs[k..k + l] && vs[k..][l..] == vs[k + l..];
    Assoc(vs[..k], [Merged(m, vs[k..k + l])], Coalesced(m, vs[k + l..]));
  }

  /** Going from k to k + 1 in wsnode_coalesce leaves what is still to come the same. */
  lemma CoalesceStep(m: seq<byte>, vs: seq<View>, k: nat, n: nat)
    requires k < |vs| && Closed(vs) && AllIn(vs, n) && n <= |m|
    ensures AllIn(vs, |m|)
    ensures var vs' := if vs[k].flags.join then ChainMerged(m, vs, k) else vs;
            && AllIn(vs', n) && Closed(vs') && k < |vs'| <= |vs|
            && vs'[..k + 1] + Coalesced(m, vs'[k + 1..]) == vs[..k] + Coalesced(m, vs[k..])
  {
    hide ChainLength, Merged, Coalesced, Closed;
    AllInMore(vs, n, |m|);
    ChainStep(vs, k);
    CoalesceFrom(m, vs, k);
    if vs[k].flags.join {
      ChainMergedKeeps(m, vs, k, n);
      var l := ChainLength(vs[k..]);
      Prefix(vs[..k], Merged(m, vs[k..k + l]), vs[k + l..]);
    } else {
      SingleChain(m, vs, k);
    }
  }

  lemma Prefix(a: seq<View>, x: View, b: seq<View>)
    ensures (a + [x] + b)[..|a| + 1] == a + [x] && (a + [x] + b)[|a| + 1..] == b
  {
  }

  lemma SingleChain(m: seq<byte>, vs: seq<View>, k: nat)
    requires k < |vs| && AllIn(vs, |m|)
    ensures Merged(m, vs[k..k + 1]) == vs[k] && vs[..k + 1] == vs[..k] + [vs[k]]
  {
  }

  lemma AllInPart(vs: seq<View>, i: nat, j: nat, n: nat)
    requires AllIn(vs, n) && i <= j <= |vs|
    ensures AllIn(vs[i..j], n) && AllIn(vs[..i], n) && AllIn(vs[j..], n)
  {
  }

  lemma MergedChain(m: seq<byte>, vs: seq<View>, k: nat, l: nat, n: nat)
    requires k < |vs| && l == ChainLength(vs[k..]) && 2 <= l && AllIn(vs, n) && n <= |m|
    ensures AllIn(vs, |m|)
    ensures ChainMerged(m, vs, k)
         == vs[..k] + [View(vs[k].flags.(join := false), Word(CString(ChainText(m, vs[k..k + l]))))] + vs[k + l..]
  {
    hide ChainText, CString, ChainLength, AllIn, Merged, ChainMerged;
    AllInMore(vs, n, |m|);
    AllInPart(vs, k, k + l, |m|);
    ChainMergedIs(m, vs, k, l);
    FirstOfChain(vs, k, l);
    MergedLong(m, vs[k..k + l]);
  }

  lemma FirstOfChain(vs: seq<View>, k: nat, l: nat)
    requires 0 < l && k + l <= |vs|
    ensures |vs[k..k + l]| == l && vs[k..k + l][0] == vs[k]
  {
  }

  lemma ChainMergedIs(m: seq<byte>, vs: seq<View>, k: nat, l: nat)
    requires k < |vs| && AllIn(vs, |m|) && l == ChainLength(vs[k..])
    ensures ChainMerged(m, vs, k) == vs[..k] + [Merged(m, vs[k..k + l])] + vs[k + l..]
  {
    hide ChainLength, Merged;
  }

  lemma MergedLong(m: seq<byte>, chain: seq<View>)
    requires |chain| >= 2 && AllIn(chain, |m|)
    ensures Merged(m, chain) == View(chain[0].flags.(join := false), Word(CString(ChainText(m, chain))))
  {
  }

  lemma ChainMore(m: seq<byte>, vs: seq<View>, k: nat, q: nat)
    requires k <= q < |vs| && AllIn(vs, |m|)
    ensures ChainText(m, vs[k..q + 1]) == ChainText(m, vs[k..q]) + NodeText(m, vs[q])
  {
    hide ChainText, NodeText;
    var s := vs[k..q + 1];
    assert s[..|s| - 1] == vs[k..q] && s[|s| - 1] == vs[q];
    ChainTextStep(m, s);
  }

  lemma ChainTextStep(m: seq<byte>, s: seq<View>)
    requires s != [] && AllIn(s, |m|)
    ensures ChainText(m, s) == ChainText(m, s[..|s| - 1]) + NodeText(m, s[|s| - 1])
  {
    hide NodeText;
  }

  lemma LongChain(vs: seq<View>, k: nat)
    requires k < |vs| && Closed(vs) && vs[k].flags.join
    ensures ChainLength(vs[k..]) >= 2
  {
    ChainStep(vs, k);
  }

  /** The chain at i ends there, or goes on. */
  lemma ChainStep(vs: seq<View>, i: nat)
    requires i < |vs| && Closed(vs)
    ensures if vs[i].flags.join then i + 1 < |vs| && ChainLength(vs[i..]) == 1 + ChainLength(vs[i + 1..])
            else ChainLength(vs[i..]) == 1
  {
    assert vs[i..][1..] == vs[i + 1..];
  }

  lemma CStringInBuffer(r: seq<byte>, rest: seq<byte>)
    ensures CString(r + [NUL] + rest) == CString(r)
  {
    Assoc(r, [NUL], rest);
    IndexOfAppend(r, [NUL] + rest, NUL);
    IndexOfIs([NUL] + rest, NUL, 0);
  }

  function Least(i: nat, n: nat): nat { if i <= n then i else n }

  lemma NoMoreWords(c: Config, m: seq<byte>, n: nat, start: nat, ws: seq<seq<Piece>>)
    requires n <= |m| && n <= start
    ensures Prefixed(ws, Words(c, m, n, start)) == Fine(ws)
  {
    assert ws + [] == ws;
  }

  lemma WordsStep(c: Config, m: seq<byte>, n: nat, start: nat, ws: seq<seq<Piece>>)
    requires start < n <= |m|
    requires !Splitting.ScanWord(c, m, n, start).Unclosed? ==> Splitting.ScanWord(c, m, n, start).endp <= n
    ensures var s := Splitting.ScanWord(c, m, n, start);
            Prefixed(ws, Words(c, m, n, start)) ==
              if s.Unclosed? then BadQuote(s.at)
              else Prefixed(ws + s.Listed(), Words(c, m, n, Splitting.SkipDelim(c, m, n, s.endp)))
  {
    hide Splitting.ScanWord, Splitting.SkipDelim, Scan.Listed;
    var s := Splitting.ScanWord(c, m, n, start);
    if !s.Unclosed? {
      var r := Words(c, m, n, Splitting.SkipDelim(c, m, n, s.endp));
      if r.Fine? {
        Assoc(ws, s.Listed(), r.value);
      }
    }
  }

  lemma {:induction false} AllViewsMore(ws: seq<seq<Piece>>, more: seq<seq<Piece>>)
    ensures AllViews(ws + more) == AllViews(ws) + AllViews(more)
    decreases |more|
  {
    hide WordViews, AllViews;
    if more == [] {
      assert ws + [] == ws;
      NoViews();
      assert AllViews(ws) + [] == AllViews(ws);
    } else {
      var front, last := more[..|more| - 1], more[|more| - 1];
      AllViewsMore(ws, front);
      AllViewsAppend(ws + front, last);
      AllViewsAppend(front, last);
      assert ws + more == ws + front + [last] && more == front + [last];
      Assoc(AllViews(ws), AllViews(front), WordViews(last));
    }
  }

  lemma NoViews()
    ensures AllViews([]) == []
  {
  }

  /** One more word in order keeps the list in order; a torn one brings in a segment that does not fit. */
  lemma ListedInOrder(ws: seq<seq<Piece>>, s: Scan, start: nat, next: nat, n: nat)
    requires WordsFit(ws, n) ==> ListOk(AllViews(ws), start)
    requires !s.Unclosed? && start <= s.endp <= next && InOrder(s.pieces, start, s.endp)
    ensures WordsFit(ws + s.Listed(), n) ==> ListOk(AllViews(ws + s.Listed()), next)
  {
    hide AllViews, WordViews, ListOk, InOrder;
    var l, all := s.Listed(), ws + s.Listed();
    AllViewsMore(ws, l);
    ViewsOfListed(s);
    if s.Torn? {
      assert !Fits(all[|ws| + 1][0], n);
    } else if WordsFit(all, n) {
      assert forall k :: 0 <= k < |ws| ==> all[k] == ws[k];
      assert AllViews(l) == WordViews(s.pieces);
      assert WordsFit(ws, n);
      ListOkMore(AllViews(ws), s.pieces, start, s.endp, next);
    }
  }

  lemma ViewsOfListed(s: Scan)
    requires !s.Unclosed?
    ensures AllViews(s.Listed()) == WordViews(s.pieces) +
              if s.Torn? then [View(PLAIN, Segm(s.endp + 1, s.endp))] else []
    ensures s.Scanned? ==> AllViews(s.Listed()) == WordViews(s.pieces)
  {
    ViewsOfOne(s.pieces);
    if s.Torn? {
      var p := Piece(Plain, s.endp + 1, s.endp);
      assert s.Listed()[1..] == [[p]];
      ViewsOfOne([p]);
    }
  }

  lemma ViewsOfOne(w: seq<Piece>)
    ensures AllViews([w]) == WordViews(w) && AllViews([]) == [] && (w == [] ==> WordViews(w) == [])
  {
    assert WordViews(w) + [] == WordViews(w);
  }

  /** How a scanned word ends whose quoted parts are w, and where plain text was read from start to i. */
  function Ended(w: seq<Piece>, start: nat, i: nat, emptyOk: bool): Scan {
    if start > i then Torn(w, i)
    else Scanned(w + if emptyOk then [Piece(Plain, start, i)] else Head(start, i), i)
  }

  lemma LastViews(base: seq<View>, w: seq<Piece>, start: nat, i: nat, emptyOk: bool)
    requires start <= i || start == i + 1
    ensures var last, all := [View(PLAIN, Segm(start, i))], base + AllViews(Ended(w, start, i, emptyOk).Listed());
            && (start == i && !emptyOk ==> base + WordViews(w) + [] == all)
            && (start == i && emptyOk && w == [] ==> base + WordViews(w) + last == all)
            && (start < i && !emptyOk ==> base + Joining(w) + last == all)
            && (start > i ==> base + WordViews(w) + last == all)
    ensures w == [] ==> WordViews(w) == Joining(w)
  {
    var s := Ended(w, start, i, emptyOk);
    ViewsOfListed(s);
    JoiningMore(base, w, Piece(Plain, start, i));
    assert w + [] == w;
    Assoc(base, WordViews(w), [View(PLAIN, Segm(start, i))]);
    assert WordViews(s.pieces) + [] == WordViews(s.pieces);
    if w == [] {
      assert w + [Piece(Plain, start, i)] == [Piece(Plain, start, i)];
    }
  }

  lemma AfterEnd(w: seq<Piece>, ps: seq<Piece>, at: nat)
    ensures Unclosed(at).After(w) == Unclosed(at) && Scanned(ps, at).After(w) == Scanned(w + ps, at)
  {
  }

  lemma NothingYet(base: seq<View>, s: Scan)
    ensures base + WordViews([]) == base && s.After([]) == s
  {
    AfterNothing(s);
  }

  lemma NoPieces(w: seq<Piece>, start: nat)
    requires w == []
    ensures w + [Piece(Plain, start, start)] == [Piece(Plain, start, start)] && w + Head(start, start) == []
  {
  }

  lemma PlainEndStep(c: Config, m: seq<byte>, n: nat, i: nat)
    requires i <= n <= |m|
    ensures i == n ==> PlainEnd(c, m, n, i) == n
    ensures i < n && c.quote && m[i] == BACKSLASH ==>
              PlainEnd(c, m, n, i) == if i + 1 == n then n else PlainEnd(c, m, n, i + 2)
    ensures i < n && c.IsQuote(m[i]) ==> PlainEnd(c, m, n, i) == i && m[i] != BACKSLASH
    ensures i < n && c.IsQuote(m[i]) <==> i < n && c.quote && (m[i] == SQUOTE || m[i] == DQUOTE)
    ensures i < n && !(c.quote && m[i] == BACKSLASH) && !c.IsQuote(m[i]) ==>
              PlainEnd(c, m, n, i) == if c.IsDelim(m[i]) then i else PlainEnd(c, m, n, i + 1)
  {
  }

  lemma PlainLast(c: Config, m: seq<byte>, n: nat, start: nat, i: nat)
    requires start <= i <= n <= |m| && PlainEnd(c, m, n, start) == i && (i < n ==> !c.IsQuote(m[i]))
    ensures ScanRest(c, m, n, start) == Scanned(Head(start, i), i)
  {
    hide PlainEnd;
  }

  function Head(start: nat, i: nat): seq<Piece> { if start < i then [Piece(Plain, start, i)] else [] }

  /** The scan goes on after a plain part and a quoted one. */
  lemma QuotedScan(c: Config, m: seq<byte>, n: nat, start: nat, i: nat, w: seq<Piece>)
    requires start <= i < n <= |m| && c.IsQuote(m[i]) && PlainEnd(c, m, n, start) == i
    ensures var j := QuoteEnd(m, n, m[i], i + 1);
            var w' := w + Head(start, i) + [Piece(KindOf(m[i]), i + 1, j)];
            if j == n then ScanRest(c, m, n, start) == Unclosed(i)
            else ScanRest(c, m, n, start).After(w) ==
                 if c.IsDelim(m[i]) then Torn(w', j) else ScanRest(c, m, n, j + 1).After(w')
  {
    hide QuoteEnd, PlainEnd, ScanRest, Config.IsQuote, Config.IsDelim;
    ScanPlainText(c, m, n, start);
    ScanQuoted(c, m, n, i);
    var j := QuoteEnd(m, n, m[i], i + 1);
    if j < n {
      var p := Piece(KindOf(m[i]), i + 1, j);
      ThreeParts(ScanRest(c, m, n, j + 1), w, Head(start, i), [p]);
      ThreeParts(Torn([], j), w, Head(start, i), [p]);
      assert [p] + [] == [p] && w + Head(start, i) + [p] + [] == w + Head(start, i) + [p];
    }
  }

  lemma PartViews(base: seq<View>, w: seq<Piece>, start: nat, i: nat)
    requires start <= i
    ensures base + Joining(w) + (if start == i then [] else [View(Flags(false, false, true), Segm(start, i))])
            == base + Joining(w + Head(start, i))
  {
    if start < i {
      JoiningMore(base, w, Piece(Plain, start, i));
    } else {
      assert w + [] == w;
    }
  }

  lemma ThreeParts(s: Scan, w: seq<Piece>, head: seq<Piece>, p: seq<Piece>)
    ensures s.After(p).After(head).After(w) == s.After(w + head + p)
  {
    AfterAfter(s.After(p), w, head);
    AfterAfter(s, w + head, p);
  }
}
