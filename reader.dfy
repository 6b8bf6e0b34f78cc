/**
 * GeoffReader: the recursive-descent reader over a character source with one
 * character of lookahead. Every method is proved to agree with the function of
 * the same name in Scan, Literals, Entities or Document: it ends where that
 * function says the text it reads ends, and it returns what that function
 * returns, or its error.
 */
module Reader {
  import opened Wrappers
  import opened Chars
  import opened Values
  import Scan
  import Literals
  import Entities
  import JsonString
  import Nodes
  import Document
  import Graph
  import Build

  /** The `peeked` slot: NULL (nothing peeked), END_OF_DATA, or a character. */
  datatype Lookahead = Nothing | EndOfData | Char(c: char)

  /** A method result r agrees with the value-and-end spec when the cursor has
      reached the end the spec names and r carries its value, or both failed with
      the same error. */
  predicate Agrees<T(==)>(r: Result<T, ParseError>, spec: Result<(T, nat), ParseError>, cursor: nat) {
    match spec
    case Ok((v, j)) => r == Ok(v) && cursor == j
    case Err(e) => r == Err(e)
  }

  /** The same for a reader whose spec only names where it ends. */
  predicate Reaches<T(==)>(r: Result<T, ParseError>, spec: Result<nat, ParseError>, cursor: nat) {
    match spec
    case Ok(j) => r.Ok? && cursor == j
    case Err(e) => r == Err(e)
  }

  /** A node object is what the entry made for it says: its serial and its fields. */
  ghost predicate Born(o: Nodes.AbstractNode, e: Document.Entry)
    reads o
  {
    o.serial == e.serial && o.Snapshot() == e.node
  }

  /** The relationship objects rs read so far are the entries prs: their nodes are as
      the entries say and are among made, they join two different objects, and they
      have the entries' type and properties. */
  ghost predicate Shows(rs: seq<Graph.AbstractRelationship>, prs: seq<Document.PathRel>, made: seq<Nodes.AbstractNode>)
    reads set k | 0 <= k < |rs| :: rs[k], Graph.Ends(rs)
  {
    |rs| == |prs| &&
    forall k :: 0 <= k < |rs| ==>
      Born(rs[k].start, prs[k].start) && Born(rs[k].end, prs[k].end) &&
      rs[k].start in made && rs[k].end in made && rs[k].start != rs[k].end &&
      rs[k].relType == prs[k].relType && rs[k].properties == prs[k].props
  }

  /** Shows holds of a list and of what is appended to it. */
  lemma ShowsConcat(r1: seq<Graph.AbstractRelationship>, p1: seq<Document.PathRel>,
                    r2: seq<Graph.AbstractRelationship>, p2: seq<Document.PathRel>, made: seq<Nodes.AbstractNode>)
    requires Shows(r1, p1, made) && Shows(r2, p2, made)
    ensures Shows(r1 + r2, p1 + p2, made)
  {
    assert forall k :: 0 <= k < |r1| ==> (r1 + r2)[k] == r1[k] && (p1 + p2)[k] == p1[k];
    assert forall k :: |r1| <= k < |r1 + r2| ==> (r1 + r2)[k] == r2[k - |r1|] && (p1 + p2)[k] == p2[k - |r1|];
  }

  /** Shows holds on as more nodes are made. */
  lemma ShowsGrow(rs: seq<Graph.AbstractRelationship>, prs: seq<Document.PathRel>, made: seq<Nodes.AbstractNode>, more: seq<Nodes.AbstractNode>)
    requires Shows(rs, prs, made) && |made| <= |more| && more[..|made|] == made
    ensures Shows(rs, prs, more)
  {
    forall x | x in made
      ensures x in more
    {
      var k :| 0 <= k < |made| && made[k] == x;
      assert more[k] == x;
    }
  }

  /** The relationships rs[n..] were all created since the method began. */
  twostate predicate FreshFrom(new rs: seq<Graph.AbstractRelationship>, n: nat) {
    forall k :: n <= k < |rs| ==> fresh(rs[k])
  }

  /** The nodes source made since it had made m of them were all created since the
      method began. */
  twostate predicate MadeFresh(new source: Graph.NodeSource, m: nat)
    reads source
  {
    m <= |source.made| && forall k :: m <= k < |source.made| ==> fresh(source.made[k])
  }

  /** Every stored node stays one of made as more nodes are made. */
  lemma MadeByGrows(g: Graph.Subgraph, made0: seq<Nodes.AbstractNode>, source: Graph.NodeSource)
    requires forall n :: n in g.nodes ==> g.nodes[n] in made0
    requires |made0| <= |source.made| && source.made[..|made0|] == made0
    ensures g.MadeBy(source)
  {
    forall n | n in g.nodes
      ensures g.nodes[n] in source.made
    {
      var k :| 0 <= k < |made0| && made0[k] == g.nodes[n];
      assert source.made[k] == made0[k];
    }
  }

  /** A statement method did what spec, the function of the same name, says: it
      fails with spec's error, or it succeeds leaving spec's subgraph, position and
      node count. */
  ghost predicate Done(spec: Result<(Document.Doc, nat, nat), ParseError>, r: Result<(), ParseError>,
                       doc: Document.Doc, pos: nat, count: nat) {
    (spec.Err? ==> r == Err(spec.error)) &&
    (spec.Ok? ==> r.Ok? && doc == spec.value.0 && pos == spec.value.1 && count == spec.value.2)
  }

  /** One round of the statement loop did what spec says: it fails with spec's error,
      or it succeeds, telling whether it read a boundary, and leaves spec's subgraph,
      position and node count. */
  ghost predicate Stepped(spec: Result<Document.After, ParseError>, r: Result<bool, ParseError>,
                          doc: Document.Doc, pos: nat, count: nat) {
    (spec.Err? ==> r == Err(spec.error)) &&
    (spec.Ok? ==> r == Ok(spec.value.boundary) && doc == spec.value.doc && pos == spec.value.pos &&
                  count == spec.value.count)
  }

  /** What a path read gives: relationship objects rs that the entries prs model,
      and a last node, among made, that the entry last models. */
  ghost predicate Gathered(rs: seq<Graph.AbstractRelationship>, node: Nodes.AbstractNode,
                           prs: seq<Document.PathRel>, last: Document.Entry, made: seq<Nodes.AbstractNode>)
    reads set k | 0 <= k < |rs| :: rs[k], Graph.Ends(rs), node
  {
    Shows(rs, prs, made) && Born(node, last) && node in made
  }

  /** The objects a path statement creates: its relationships, their nodes and its
      last node. */
  ghost function Created(rs: seq<Graph.AbstractRelationship>, node: Nodes.AbstractNode): set<object> {
    Graph.Ends(rs) + {node} + set k | 0 <= k < |rs| :: rs[k]
  }

  /** Every object of s but x was created since the method began. */
  twostate predicate FreshBut(new s: set<object>, new x: object) {
    forall o :: o in s ==> fresh(o) || o == x
  }

  /** Every object of s was created since the method began. */
  twostate predicate AllFresh(new s: set<object>) {
    forall o :: o in s ==> fresh(o)
  }

  /** The objects of a path read since lo nodes were made are all new: its
      relationships are, and its nodes are among those made since. */
  twostate lemma CreatedFresh(new rs: seq<Graph.AbstractRelationship>, new node: Nodes.AbstractNode,
                              new source: Graph.NodeSource, new prs: seq<Document.PathRel>,
                              new last: Document.Entry, new lo: nat)
    requires source.Valid() && lo < |source.made| && MadeFresh(source, lo + 1)
    requires FreshFrom(rs, 0) && Gathered(rs, node, prs, last, source.made)
    requires Document.NewSince(prs, lo) && last.serial >= lo
    ensures FreshBut(Created(rs, node), source.made[lo])
  {
    var old0 := source.made[lo];
    forall x | x in source.made && x.serial >= lo
      ensures fresh(x) || x == old0
    {
      var j :| 0 <= j < |source.made| && source.made[j] == x;
    }
    forall k | 0 <= k < |rs|
      ensures fresh(rs[k].start) || rs[k].start == old0
      ensures fresh(rs[k].end) || rs[k].end == old0
    {
      assert Born(rs[k].start, prs[k].start) && Born(rs[k].end, prs[k].end);
    }
    hide Shows, Gathered;
    forall o | o in Created(rs, node)
      ensures fresh(o) || o == old0
    {
      if o in (set k | 0 <= k < |rs| :: rs[k].start) {
        var k :| 0 <= k < |rs| && o == rs[k].start;
      } else if o in (set k | 0 <= k < |rs| :: rs[k].end) {
        var k :| 0 <= k < |rs| && o == rs[k].end;
      } else if o != node {
        var k :| 0 <= k < |rs| && o == rs[k];
      }
    }
  }

  /** A prefix of a prefix is a prefix. */
  lemma PrefixOfPrefix<T>(a: seq<T>, b: seq<T>, c: seq<T>)
    requires |a| <= |b| && b[..|a|] == a && |b| <= |c| && c[..|b|] == b
    ensures |a| <= |c| && c[..|a|] == a
  {
    assert c[..|a|] == c[..|b|][..|a|];
  }

  /** Relationships read from a path are ready to be added: their nodes, as found,
      are modelled by their entries, and they have their entries' properties. */
  lemma ShowsAdding(g: Graph.Subgraph, rs: seq<Graph.AbstractRelationship>, prs: seq<Document.PathRel>,
                    made: seq<Nodes.AbstractNode>, props: Option<Props>)
    requires Shows(rs, prs, made)
    ensures Build.Links(rs, prs, made) && g.Pending(rs, prs) && Build.Awaits(rs, prs, props)
  {
  }

  /** The end of a path statement, once it is read: with relationships, each takes
      the trailing properties and is added; without, the last node takes them and is
      merged. */
  method ApplyPath(g: Graph.Subgraph, rs: seq<Graph.AbstractRelationship>, node: Nodes.AbstractNode,
                   props: Option<Props>, ghost prs: seq<Document.PathRel>, ghost last: Document.Entry,
                   ghost source: Graph.NodeSource, ghost created: set<object>)
    requires g.Valid() && source.Valid() && g.MadeBy(source)
    requires Gathered(rs, node, prs, last, source.made) && node !in g.nodes.Values
    requires created == Created(rs, node)
    modifies g, g.nodes.Values, created
    ensures g.Valid() && g.MadeBy(source)
    ensures g.Doc() == Document.Attach(old(g.Doc()), prs, last, props)
    ensures g.nodes.Values <= old(g.nodes.Values) + created
  {
    if |rs| > 0 {
      ShowsAdding(g, rs, prs, source.made, props);
      Build.AddRelationships(g, rs, prs, props, source);
    } else {
      Build.MergeLast(g, node, last, props, source);
    }
  }

  class GeoffReader {
    /** The whole input of the underlying BufferedReader. */
    const src: seq<char>
    /** How much of the input the callers of read() and peek() have consumed. The
        underlying reader is one character further when a character is peeked. */
    var pos: nat
    var peeked: Lookahead

    ghost predicate Valid()
      reads this
    {
      pos <= |src| &&
      (peeked.EndOfData? ==> pos == |src|) &&
      (peeked.Char? ==> pos < |src| && src[pos] == peeked.c)
    }

    constructor (src: seq<char>)
      ensures Valid() && this.src == src && pos == 0
    {
      this.src := src;
      pos := 0;
      peeked := Nothing;
    }

    /** read(): returns the peeked character or the next one of the underlying
        reader; fails at the end of input. The lookahead is empty afterwards. */
    method Read() returns (r: Result<char, ParseError>)
      requires Valid()
      modifies this
      ensures Valid() && peeked == Nothing
      ensures old(pos) < |src| ==> r == Ok(src[old(pos)]) && pos == old(pos) + 1
      ensures old(pos) == |src| ==> r == Err(UnexpectedEndOfData) && pos == old(pos)
    {
      var ch: Lookahead;
      if peeked == Nothing {
        ch := if pos < |src| then Char(src[pos]) else EndOfData;
      } else {
        ch := peeked;
        peeked := Nothing;
      }
      if ch.EndOfData? {
        return Err(UnexpectedEndOfData);
      }
      pos := pos + 1;
      return Ok(ch.c);
    }

    /** peek(): fills the lookahead when it is empty and returns it; consumes
        nothing, and a second peek changes nothing at all. */
    method Peek() returns (r: Option<char>)
      requires Valid()
      modifies this
      ensures Valid() && pos == old(pos) && peeked != Nothing
      ensures r == if pos < |src| then Some(src[pos]) else None
      ensures old(peeked) != Nothing ==> peeked == old(peeked)
    {
      if peeked == Nothing {
        peeked := if pos < |src| then Char(src[pos]) else EndOfData;
      }
      if peeked == EndOfData {
        return None;
      }
      return Some(peeked.c);
    }

    /** nextCharEquals(c). */
    method NextCharEquals(c: char) returns (b: bool)
      requires Valid()
      modifies this
      ensures Valid() && pos == old(pos)
      ensures b <==> pos < |src| && src[pos] == c
    {
      var next := Peek();
      b := next.Some? && next.value == c;
    }

    /** hasMore(): whether any input is left. */
    method HasMore() returns (b: bool)
      requires Valid()
      modifies this
      ensures Valid() && pos == old(pos)
      ensures b <==> pos < |src|
    {
      var next := Peek();
      b := next.Some?;
    }

    /** readChar(c): consumes c, or fails. */
    method ReadChar(c: char) returns (r: Result<char, ParseError>)
      requires Valid()
      modifies this
      ensures Valid()
      ensures if old(pos) < |src| && src[old(pos)] == c then r == Ok(c) && pos == old(pos) + 1
              else r == Err(UnexpectedCharacter) && pos == old(pos)
    {
      var ok := NextCharEquals(c);
      if !ok {
        return Err(UnexpectedCharacter);
      }
      r := Read();
    }

    /** readUntil(c): the characters consumed up to and including the first c, or
        to the end of input: the text read followed by what is left is what was
        left before. */
    method ReadUntil(t: char) returns (s: string)
      requires Valid()
      modifies this
      ensures Valid()
      ensures pos == Scan.UntilEnd(src, old(pos), t)
      ensures s == src[old(pos)..pos]
    {
      ghost var start := pos;
      s := [];
      var ch := '\0';
      var more := HasMore();
      while more && ch != t
        invariant Valid() && start <= pos <= |src|
        invariant s == src[start..pos]
        invariant more <==> pos < |src|
        invariant t == '\0' ==> pos == start
        invariant t != '\0' && ch == t ==> pos == Scan.ScanTo(src, start, t)
        invariant t != '\0' && ch != t ==> Scan.ScanTo(src, start, t) == Scan.ScanTo(src, pos, t)
        decreases |src| - pos, if ch == t then 0 else 1
      {
        var r := Read();
        ch := r.value;
        s := s + [ch];
        more := HasMore();
      }
    }

    /** readUntil(t), for a non-empty terminator t: repeats readUntil(last character of
        t) until the text read ends with t or the input is exhausted. */
    method ReadUntilString(t: seq<char>) returns (s: string)
      requires Valid()
      requires |t| > 0 && t[|t| - 1] != '\0'
      modifies this
      ensures Valid()
      ensures pos == Scan.UntilStrEnd(src, old(pos), old(pos), t)
      ensures s == src[old(pos)..pos]
    {
      ghost var start := pos;
      ghost var end := Scan.UntilStrEnd(src, start, start, t);
      s := [];
      var terminatorChar := t[|t| - 1];
      var more := HasMore();
      while more && !EndsWith(s, t)
        invariant Valid() && start <= pos <= |src|
        invariant s == src[start..pos]
        invariant more <==> pos < |src|
        invariant end == Scan.UntilStrEnd(src, start, pos, t)
        decreases |src| - pos
      {
        ghost var c0 := pos;
        Scan.UntilStrEndStep(src, start, c0, t);
        var piece := ReadUntil(terminatorChar);
        SliceConcat(src, start, c0, pos);
        s := s + piece;
        more := HasMore();
      }
      Scan.UntilStrEndStop(src, start, pos, t);
    }

    /** readWhitespace(): consumes and returns the whitespace that follows. */
    method ReadWhitespace() returns (s: string)
      requires Valid()
      modifies this
      ensures Valid()
      ensures pos == Scan.WsEnd(src, old(pos))
      ensures s == src[old(pos)..pos]
    {
      ghost var start := pos;
      s := [];
      while true
        invariant Valid() && start <= pos <= |src|
        invariant s == src[start..pos]
        invariant Scan.WsEnd(src, start) == Scan.WsEnd(src, pos)
        decreases |src| - pos
      {
        var next := Peek();
        if next.None? || !IsWhitespace(next.value) {
          break;
        }
        var r := Read();
        s := s + [r.value];
      }
    }

    /** readString, with the end-of-span test corrected (see Literals.SpanEnd): the
        opening character, then the span up to the closing quote, then the JSON
        decoding of the span. */
    method ReadString() returns (r: Result<string, ParseError>)
      requires Valid()
      modifies this
      ensures Valid()
      ensures Agrees(r, Literals.ReadString(src, old(pos)), pos)
    {
      ghost var i := pos;
      var first :- Read();
      var s := ReadStringSpan([first]);
      r := JsonString.Decode(s);
    }

    /** The capture loop of readString: readUntil('"') while the last quote read is
        escaped and input is left. */
    method ReadStringSpan(opening: string) returns (s: string)
      requires Valid() && 0 < pos && opening == src[pos - 1..pos]
      modifies this
      ensures Valid()
      ensures pos == Literals.SpanEnd(src, old(pos) - 1, old(pos))
      ensures s == src[old(pos) - 1..pos]
    {
      ghost var i := pos - 1;
      s := opening;
      var endOfString := false;
      var more := HasMore();
      while more && !endOfString
        invariant Valid() && i < pos <= |src|
        invariant s == src[i..pos]
        invariant more <==> pos < |src|
        invariant endOfString ==> pos == Literals.SpanEnd(src, i, i + 1)
        invariant !endOfString ==> Literals.SpanEnd(src, i, i + 1) == Literals.SpanEnd(src, i, pos)
        decreases |src| - pos, if endOfString then 0 else 1
      {
        ghost var c0 := pos;
        var piece := ReadUntil('"');
        SliceConcat(src, i, c0, pos);
        s := s + piece;
        endOfString := !Literals.QuoteIsEscaped(s);
        assert Literals.SpanEnd(src, i, c0) == if endOfString then pos else Literals.SpanEnd(src, i, pos);
        more := HasMore();
      }
    }

    /** readBoolean: `true` or `false`, one character at a time. */
    method ReadBoolean() returns (r: Result<bool, ParseError>)
      requires Valid()
      modifies this
      ensures Valid()
      ensures Agrees(r, Literals.ReadBoolean(src, old(pos)), pos)
    {
      var isT := NextCharEquals('t');
      if isT {
        var _ := ReadChar('t');
        var _ :- ReadChar('r');
        var _ :- ReadChar('u');
        var _ :- ReadChar('e');
        return Ok(true);
      }
      var isF := NextCharEquals('f');
      if isF {
        var _ := ReadChar('f');
        var _ :- ReadChar('a');
        var _ :- ReadChar('l');
        var _ :- ReadChar('s');
        var _ :- ReadChar('e');
        return Ok(false);
      }
      return Err(CannotEstablishTruth);
    }

    /** A digit loop of readNumber, `while (Character.isDigit(this.peek()))`: the
        digits that follow; unboxing the null that peek() returns at the end of
        input fails. */
    method ReadDigits() returns (r: Result<string, ParseError>)
      requires Valid()
      modifies this
      ensures Valid()
      ensures r.Ok? ==> Scan.DigitsEnd(src, old(pos)) == Ok(pos) && r.value == src[old(pos)..pos]
      ensures r.Err? ==> Scan.DigitsEnd(src, old(pos)) == Err(NullCharacter) && r == Err(NullCharacter)
    {
      ghost var start := pos;
      var s := [];
      while true
        invariant Valid() && start <= pos <= |src|
        invariant s == src[start..pos]
        invariant Scan.DigitsEnd(src, start) == Scan.DigitsEnd(src, pos)
        decreases |src| - pos
      {
        var next := Peek();
        if next.None? {
          return Err(NullCharacter);
        }
        if !IsDigit(next.value) {
          return Ok(s);
        }
        var ch := Read();
        s := s + [ch.value];
      }
    }

    /** The first two parts of readNumber: returns the text read and its shape. */
    method ReadMantissa() returns (r: Result<(string, Literals.Mantissa), ParseError>)
      requires Valid()
      modifies this
      ensures Valid()
      ensures var spec := Literals.ScanMantissa(src, old(pos));
        (spec.Err? ==> r == Err(spec.error)) &&
        (spec.Ok? ==> (r.Ok? && r.value.1 == spec.value && pos == old(pos) + spec.value.c &&
                       r.value.0 == src[old(pos)..pos]))
    {
      ghost var i := pos;
      var s := "";
      var minus := NextCharEquals('-');
      if minus {
        var ch := Read();
        SliceOne(src, i);
        s := [ch.value];
      }
      var rest :- ReadInteger(i, |s|);
      SliceConcat(src, i, i + |s|, pos);
      return Ok((s + rest.0, rest.1));
    }

    /** The integer digits from offset a of a literal started at i, then the
        fraction. */
    method ReadInteger(ghost i: nat, a: nat) returns (r: Result<(string, Literals.Mantissa), ParseError>)
      requires Valid() && pos == i + a <= |src|
      modifies this
      ensures Valid()
      ensures var spec := Literals.ScanInteger(src, i, a);
        (spec.Err? ==> r == Err(spec.error)) &&
        (spec.Ok? ==> (r.Ok? && r.value.1 == spec.value && pos == i + spec.value.c &&
                       r.value.0 == src[i + a..pos]))
    {
      var digits :- ReadDigits();
      var fraction :- ReadFraction(i, a, a + |digits|);
      SliceConcat(src, i + a, i + a + |digits|, pos);
      return Ok((digits + fraction.0, fraction.1));
    }

    /** The optional '.' and fraction digits, the integer digits ending at offset b of
        a literal started at i. */
    method ReadFraction(ghost i: nat, a: nat, b: nat) returns (r: Result<(string, Literals.Mantissa), ParseError>)
      requires Valid() && a <= b && pos == i + b < |src|
      modifies this
      ensures Valid()
      ensures var spec := Literals.ScanFraction(src, i, a, b);
        (spec.Err? ==> r == Err(spec.error)) &&
        (spec.Ok? ==> (r.Ok? && r.value.1 == spec.value && pos == i + spec.value.c &&
                       r.value.0 == src[i + b..pos]))
    {
      var hasDot := NextCharEquals('.');
      if !hasDot {
        return Ok(([], Literals.Mantissa(a, b, false, b)));
      }
      var ch := Read();
      SliceOne(src, i + b);
      var digits :- ReadDigits();
      SliceConcat(src, i + b, i + b + 1, pos);
      return Ok(([ch.value] + digits, Literals.Mantissa(a, b, true, b + 1 + |digits|)));
    }

    /** The exponent part of readNumber, from offset c of a literal started at i. */
    method ReadExponent(ghost i: nat, c: nat) returns (r: Result<(string, Literals.Exponent), ParseError>)
      requires Valid() && pos == i + c < |src|
      modifies this
      ensures Valid()
      ensures var spec := Literals.ScanExponent(src, i, c);
        (spec.Err? ==> r == Err(spec.error)) &&
        (spec.Ok? ==> (r.Ok? && r.value.1 == spec.value && pos == i + spec.value.e &&
                       r.value.0 == src[i + c..pos]))
    {
      var upper := NextCharEquals('E');
      var lower := NextCharEquals('e');
      if !(upper || lower) {
        return Ok(([], Literals.Exponent(false, c + 1, c)));
      }
      var ch := Read();
      SliceOne(src, i + c);
      var rest :- ReadExponentDigits(i, c + 1);
      SliceConcat(src, i + c, i + c + 1, pos);
      return Ok(([ch.value] + rest.0, rest.1));
    }

    /** The exponent after its 'E' or 'e', which ends at offset d0: an optional sign,
        then digits. */
    method ReadExponentDigits(ghost i: nat, d0: nat) returns (r: Result<(string, Literals.Exponent), ParseError>)
      requires Valid() && pos == i + d0 <= |src|
      modifies this
      ensures Valid()
      ensures var spec := Literals.ScanExponentDigits(src, i, d0);
        (spec.Err? ==> r == Err(spec.error)) &&
        (spec.Ok? ==> (r.Ok? && r.value.1 == spec.value && pos == i + spec.value.e &&
                       r.value.0 == src[i + d0..pos]))
    {
      var s := [];
      var d := d0;
      var plus := NextCharEquals('+');
      var neg := NextCharEquals('-');
      if plus || neg {
        var sign := Read();
        SliceOne(src, i + d0);
        s := [sign.value];
        d := d0 + 1;
      }
      var digits :- ReadDigits();
      SliceConcat(src, i + d0, i + d, pos);
      return Ok((s + digits, Literals.Exponent(true, d, d + |digits|)));
    }

    /** readNumber: the text of the literal, then Integer.parseInt or
        Double.parseDouble of it (Literals.ParseNumber). */
    method ReadNumber() returns (r: Result<Number, ParseError>)
      requires Valid()
      modifies this
      ensures Valid()
      ensures Agrees(r, Literals.ReadNumber(src, old(pos)), pos)
    {
      ghost var i := pos;
      var mantissa :- ReadMantissa();
      var exponent :- ReadExponent(i, mantissa.1.c);
      var text := mantissa.0 + exponent.0;
      SliceConcat(src, i, i + mantissa.1.c, pos);
      r := Literals.ParseNumber(text, mantissa.1, exponent.1);
    }
  

    /** The kind readArray dispatches on, from the lookahead: '"' strings; '-' or a
        digit numbers, where Character.isDigit(peek()) fails at the end of input;
        't' or 'f' booleans; anything else is "Disarray". */
    method ReadArrayKind() returns (r: Result<Literals.ItemKind, ParseError>)
      requires Valid()
      modifies this
      ensures Valid() && pos == old(pos)
      ensures r == Literals.ArrayKind(src, pos)
    {
      var quote := NextCharEquals('"');
      if quote {
        return Ok(Literals.StrKind);
      }
      var minus := NextCharEquals('-');
      if minus {
        return Ok(Literals.NumKind);
      }
      var next := Peek();
      if next.None? {
        return Err(NullCharacter);
      }
      if IsDigit(next.value) {
        return Ok(Literals.NumKind);
      }
      var t := NextCharEquals('t');
      var f := NextCharEquals('f');
      if t || f {
        return Ok(Literals.BoolKind);
      }
      return Err(Disarray);
    }

    /** One array element of the given kind. */
    method ReadItem(kind: Literals.ItemKind) returns (r: Result<Literals.Item, ParseError>)
      requires Valid()
      modifies this
      ensures Valid()
      ensures Agrees(r, Literals.ReadItem(src, old(pos), kind), pos)
    {
      match kind
      case StrKind =>
        var s :- ReadString();
        return Ok(Literals.StrItem(s));
      case NumKind =>
        var n :- ReadNumber();
        return Ok(Literals.NumItem(n));
      case BoolKind =>
        var b :- ReadBoolean();
        return Ok(Literals.BoolItem(b));
    }

    /** One round of the comma loop of readArray: ',', whitespace, an element,
        whitespace. */
    method ReadNextItem(kind: Literals.ItemKind) returns (r: Result<Literals.Item, ParseError>)
      requires Valid() && pos < |src|
      modifies this
      ensures Valid()
      ensures Agrees(r, Literals.NextItem(src, old(pos), kind), pos)
    {
      hide Literals.ReadItem;
      var _ := Read();
      var _ := ReadWhitespace();
      var it :- ReadItem(kind);
      var _ := ReadWhitespace();
      return Ok(it);
    }

    /** The elements of a non-empty array: the first element, whitespace, then the
        comma loop. */
    method ReadItems(kind: Literals.ItemKind) returns (r: Result<seq<Literals.Item>, ParseError>)
      requires Valid()
      modifies this
      ensures Valid()
      ensures Agrees(r, Literals.ArrayItems(src, old(pos), kind), pos)
    {
      var first :- ReadItem(kind);
      var _ := ReadWhitespace();
      r := ReadMoreItems(kind, [first]);
    }

    /** The `while (nextCharEquals(','))` loop of readArray, appending to acc. */
    method ReadMoreItems(kind: Literals.ItemKind, acc: seq<Literals.Item>) returns (r: Result<seq<Literals.Item>, ParseError>)
      requires Valid() && Literals.OfKind(acc, kind)
      modifies this
      ensures Valid()
      ensures Agrees(r, Literals.ItemsLoop(src, old(pos), kind, acc), pos)
    {
      ghost var spec := Literals.ItemsLoop(src, pos, kind, acc);
      var items := acc;
      var more := NextCharEquals(',');
      while more
        invariant Valid() && Literals.OfKind(items, kind)
        invariant spec == Literals.ItemsLoop(src, pos, kind, items)
        invariant more <==> Scan.NextIs(src, pos, ',')
        decreases |src| - pos
      {
        Literals.ItemsLoopStep(src, pos, kind, items);
        var it :- ReadNextItem(kind);
        items := items + [it];
        more := NextCharEquals(',');
      }
      return Ok(items);
    }

    /** readArray after '[' and whitespace. */
    method ReadArrayBody() returns (r: Result<Literals.ListLit, ParseError>)
      requires Valid()
      modifies this
      ensures Valid()
      ensures Agrees(r, Literals.ArrayBody(src, old(pos)), pos)
    {
      var empty := NextCharEquals(']');
      if empty {
        var _ := Read();
        return Ok(Literals.EmptyList);
      }
      var kind :- ReadArrayKind();
      var items :- ReadItems(kind);
      var _ :- ReadChar(']');
      return Ok(Literals.MakeList(kind, items));
    }

    /** readArray. */
    method ReadArray() returns (r: Result<Literals.ListLit, ParseError>)
      requires Valid()
      modifies this
      ensures Valid()
      ensures Agrees(r, Literals.ReadArray(src, old(pos)), pos)
    {
      var _ :- ReadChar('[');
      var _ := ReadWhitespace();
      r := ReadArrayBody();
    }
  

    /** readValue: dispatches on the lookahead; an empty array becomes null. */
    method ReadValue() returns (r: Result<Value, ParseError>)
      requires Valid()
      modifies this
      ensures Valid()
      ensures Agrees(r, Literals.ReadValue(src, old(pos)), pos)
    {
      var isArray := NextCharEquals('[');
      if isArray {
        var l :- ReadArray();
        return Ok(Literals.ListValue(l));
      }
      var isString := NextCharEquals('"');
      if isString {
        var s :- ReadString();
        return Ok(Str(s));
      }
      var isNumber := ReadNumberAhead();
      if isNumber.Err? {
        return Err(isNumber.error);
      }
      if isNumber.value {
        var n :- ReadNumber();
        return Ok(Num(n));
      }
      var t := NextCharEquals('t');
      var f := NextCharEquals('f');
      if t || f {
        var b :- ReadBoolean();
        return Ok(Bool(b));
      }
      r := ReadNull();
    }

    /** The test `nextCharEquals('-') || Character.isDigit(peek())`, which fails
        when the input is exhausted and no '-' came first. */
    method ReadNumberAhead() returns (r: Result<bool, ParseError>)
      requires Valid()
      modifies this
      ensures Valid() && pos == old(pos)
      ensures Scan.NextIs(src, pos, '-') ==> r == Ok(true)
      ensures !Scan.NextIs(src, pos, '-') && pos == |src| ==> r == Err(NullCharacter)
      ensures pos < |src| && src[pos] != '-' ==> r == Ok(IsDigit(src[pos]))
    {
      var minus := NextCharEquals('-');
      if minus {
        return Ok(true);
      }
      var next := Peek();
      if next.None? {
        return Err(NullCharacter);
      }
      return Ok(IsDigit(next.value));
    }

    /** The last branches of readValue: `null`, or an unexpected character. */
    method ReadNull() returns (r: Result<Value, ParseError>)
      requires Valid()
      modifies this
      ensures Valid()
      ensures !Scan.NextIs(src, old(pos), 'n') ==> r == Err(UnexpectedCharacter) && pos == old(pos)
      ensures Scan.NextIs(src, old(pos), 'n') ==>
        var b := Scan.ReadChar(src, old(pos) + 1, 'u');
        var c := if b.Ok? then Scan.ReadChar(src, b.value, 'l') else b;
        var d := if c.Ok? then Scan.ReadChar(src, c.value, 'l') else c;
        Reaches(r, d, pos) && (r.Ok? ==> r.value == Null)
    {
      var n := NextCharEquals('n');
      if !n {
        return Err(UnexpectedCharacter);
      }
      var _ := Read();
      var _ :- ReadChar('u');
      var _ :- ReadChar('l');
      var _ :- ReadChar('l');
      return Ok(Null);
    }
  

    /** readArrow: "<-", "->" or "-"; anything else is a broken arrow. */
    method ReadArrow() returns (r: Result<Entities.Arrow, ParseError>)
      requires Valid()
      modifies this
      ensures Valid()
      ensures Agrees(r, Entities.ReadArrow(src, old(pos)), pos)
    {
      var lt := NextCharEquals('<');
      if lt {
        var _ := Read();
        var _ :- ReadChar('-');
        return Ok(Entities.Incoming);
      }
      var minus := NextCharEquals('-');
      if minus {
        var _ := Read();
        var gt := NextCharEquals('>');
        if gt {
          var _ := Read();
          return Ok(Entities.Outgoing);
        }
        return Ok(Entities.Undirected);
      }
      return Err(BrokenArrow);
    }

    /** readBoundary: four tildes, then every tilde that follows. */
    method ReadBoundary() returns (r: Result<(), ParseError>)
      requires Valid()
      modifies this
      ensures Valid()
      ensures Reaches(r, Entities.ReadBoundary(src, old(pos)), pos)
    {
      var _ :- ReadChar('~');
      var _ :- ReadChar('~');
      var _ :- ReadChar('~');
      var _ :- ReadChar('~');
      ghost var start := pos;
      var more := NextCharEquals('~');
      while more
        invariant Valid() && start <= pos
        invariant Entities.TildeEnd(src, start) == Entities.TildeEnd(src, pos)
        invariant more <==> Scan.NextIs(src, pos, '~')
        decreases |src| - pos
      {
        var _ := Read();
        more := NextCharEquals('~');
      }
      return Ok(());
    }

    /** readComment: a slash and a star, the text up to and including the closing delimiter, from
        which the last two characters are cut and the rest is trimmed. */
    method ReadComment() returns (r: Result<string, ParseError>)
      requires Valid()
      modifies this
      ensures Valid()
      ensures Agrees(r, Entities.ReadComment(src, old(pos)), pos)
    {
      hide Trim, Entities.ReadComment, Scan.UntilStrEnd;
      Entities.ReadCommentText(src, pos);
      var _ :- ReadChar('/');
      var _ :- ReadChar('*');
      ghost var b := pos;
      var comment := ReadUntilString(Entities.CommentEnd);
      if |comment| < 2 {
        return Err(CommentTooShort);
      }
      assert comment[..|comment| - 2] == src[b..pos - 2];
      return Ok(Trim(comment[..|comment| - 2]));
    }

    /** readName: a quoted string, or the letters, digits and underscores that follow. */
    method ReadName() returns (r: Result<string, ParseError>)
      requires Valid()
      modifies this
      ensures Valid()
      ensures Agrees(r, Entities.ReadName(src, old(pos)), pos)
    {
      var quoted := NextCharEquals('"');
      if quoted {
        r := ReadString();
        return;
      }
      ghost var start := pos;
      var s := [];
      while true
        invariant Valid() && start <= pos <= |src|
        invariant s == src[start..pos]
        invariant Scan.NameEnd(src, start) == Scan.NameEnd(src, pos)
        decreases |src| - pos
      {
        var more := HasMore();
        if !more {
          break;
        }
        var next := Peek();
        var underscore := NextCharEquals('_');
        if !(IsLetterOrDigit(next.value) || underscore) {
          break;
        }
        var ch := Read();
        s := s + [ch.value];
      }
      return Ok(s);
    }

    /** readLabels: a name after every ':'. */
    method ReadLabels() returns (r: Result<set<string>, ParseError>)
      requires Valid()
      modifies this
      ensures Valid()
      ensures Agrees(r, Entities.ReadLabels(src, old(pos)), pos)
    {
      hide Entities.ReadName, Entities.LabelsLoop;
      ghost var spec := Entities.LabelsLoop(src, pos, {});
      var labels := {};
      var more := NextCharEquals(':');
      while more
        invariant Valid()
        invariant spec == Entities.LabelsLoop(src, pos, labels)
        invariant more <==> Scan.NextIs(src, pos, ':')
        decreases |src| - pos
      {
        Entities.LabelsLoopStep(src, pos, labels);
        var _ := Read();
        var name :- ReadName();
        labels := labels + {name};
        more := NextCharEquals(':');
      }
      Entities.LabelsLoopEnd(src, pos, labels);
      return Ok(labels);
    }

    /** readKeyValuePairInto, returning the pair: a name, ':', a value. */
    method ReadKeyValue() returns (r: Result<(string, Value), ParseError>)
      requires Valid()
      modifies this
      ensures Valid()
      ensures var spec := Entities.ReadKeyValue(src, old(pos));
        (spec.Err? ==> r == Err(spec.error)) &&
        (spec.Ok? ==> (r == Ok((spec.value.0, spec.value.1)) && pos == spec.value.2))
    {
      hide Entities.ReadName, Literals.ReadValue;
      var key :- ReadName();
      var _ := ReadWhitespace();
      var _ :- ReadChar(':');
      var _ := ReadWhitespace();
      var value :- ReadValue();
      return Ok((key, value));
    }

    /** One round of the comma loop of readPropertyMap. */
    method ReadNextPair() returns (r: Result<(string, Value), ParseError>)
      requires Valid() && pos < |src|
      modifies this
      ensures Valid()
      ensures var spec := Entities.NextPair(src, old(pos));
        (spec.Err? ==> r == Err(spec.error)) &&
        (spec.Ok? ==> (r == Ok((spec.value.0, spec.value.1)) && pos == spec.value.2))
    {
      var _ := Read();
      var _ := ReadWhitespace();
      var kv :- ReadKeyValue();
      var _ := ReadWhitespace();
      return Ok(kv);
    }

    /** The comma loop of readPropertyMap, putting every pair into props. */
    method ReadMorePairs(props: Props) returns (r: Result<Props, ParseError>)
      requires Valid()
      modifies this
      ensures Valid()
      ensures Agrees(r, Entities.PairsLoop(src, old(pos), props), pos)
    {
      ghost var spec := Entities.PairsLoop(src, pos, props);
      var pairs := props;
      var more := NextCharEquals(',');
      while more
        invariant Valid()
        invariant spec == Entities.PairsLoop(src, pos, pairs)
        invariant more <==> Scan.NextIs(src, pos, ',')
        decreases |src| - pos
      {
        Entities.PairsLoopStep(src, pos, pairs);
        var kv :- ReadNextPair();
        pairs := pairs[kv.0 := kv.1];
        more := NextCharEquals(',');
      }
      return Ok(pairs);
    }

    /** readPropertyMap: '{', whitespace, the pairs unless '}' follows, '}'. */
    method ReadPropertyMap() returns (r: Result<Props, ParseError>)
      requires Valid()
      modifies this
      ensures Valid()
      ensures Agrees(r, Entities.ReadPropertyMap(src, old(pos)), pos)
    {
      var _ :- ReadChar('{');
      var _ := ReadWhitespace();
      var props := map[];
      var close := NextCharEquals('}');
      if !close {
        var kv :- ReadKeyValue();
        var _ := ReadWhitespace();
        props :- ReadMorePairs(map[kv.0 := kv.1]);
      }
      var _ :- ReadChar('}');
      return Ok(props);
    }
  

    /** A property map when '{' follows, else null. */
    method ReadOptPropertyMap() returns (r: Result<Option<Props>, ParseError>)
      requires Valid()
      modifies this
      ensures Valid()
      ensures Agrees(r, Entities.OptPropertyMap(src, old(pos)), pos)
    {
      var brace := NextCharEquals('{');
      if !brace {
        return Ok(None);
      }
      var p :- ReadPropertyMap();
      return Ok(Some(p));
    }

    /** A label list when ':' follows, else null. */
    method ReadOptLabels() returns (r: Result<Option<set<string>>, ParseError>)
      requires Valid()
      modifies this
      ensures Valid()
      ensures Agrees(r, Entities.OptLabels(src, old(pos)), pos)
    {
      var colon := NextCharEquals(':');
      if !colon {
        return Ok(None);
      }
      var l :- ReadLabels();
      return Ok(Some(l));
    }

    /** What readNode reads between "(" and whitespace, and the closing whitespace:
        nothing, labels and a property map, a property map, or a name with optional
        labels and property map. */
    method ReadNodeBody() returns (r: Result<Entities.NodeLit, ParseError>)
      requires Valid()
      modifies this
      ensures Valid()
      ensures Agrees(r, Entities.NodeBody(src, old(pos)), pos)
    {
      var close := NextCharEquals(')');
      if close {
        return Ok(Entities.NodeLit(None, None, None));
      }
      var colon := NextCharEquals(':');
      if colon {
        var labels :- ReadLabels();
        var _ := ReadWhitespace();
        var props :- ReadOptPropertyMap();
        return Ok(Entities.NodeLit(None, Some(labels), props));
      }
      var brace := NextCharEquals('{');
      if brace {
        var props :- ReadPropertyMap();
        return Ok(Entities.NodeLit(None, None, Some(props)));
      }
      r := ReadNamedNodeBody();
    }

    /** The last branch of ReadNodeBody: a name, then optional labels and property map. */
    method ReadNamedNodeBody() returns (r: Result<Entities.NodeLit, ParseError>)
      requires Valid()
      modifies this
      ensures Valid()
      ensures Agrees(r, Entities.NamedNodeBody(src, old(pos)), pos)
    {
      var name :- ReadName();
      var _ := ReadWhitespace();
      var labels :- ReadOptLabels();
      var _ := ReadWhitespace();
      var props :- ReadOptPropertyMap();
      return Ok(Entities.NodeLit(Some(name), labels, props));
    }

    /** readNode, up to the constructor call: the three constructor arguments. */
    method ReadNodeLit() returns (r: Result<Entities.NodeLit, ParseError>)
      requires Valid()
      modifies this
      ensures Valid()
      ensures Agrees(r, Entities.ReadNode(src, old(pos)), pos)
    {
      var _ :- ReadChar('(');
      var _ := ReadWhitespace();
      var body :- ReadNodeBody();
      var _ := ReadWhitespace();
      var _ :- ReadChar(')');
      return Ok(body);
    }

    /** The part of readRelationshipBox after the name: ':', the type, an optional
        property map and ']'. */
    method ReadRelBoxRest() returns (r: Result<Entities.RelBox, ParseError>)
      requires Valid()
      modifies this
      ensures Valid()
      ensures Agrees(r, Entities.RelBoxRest(src, old(pos)), pos)
    {
      hide Entities.ReadName, Entities.RelBoxTail;
      var _ :- ReadChar(':');
      var relType :- ReadName();
      r := ReadRelBoxTail(relType);
    }

    /** After the relationship type: the optional property map and ']'. */
    method ReadRelBoxTail(relType: string) returns (r: Result<Entities.RelBox, ParseError>)
      requires Valid()
      modifies this
      ensures Valid()
      ensures Agrees(r, Entities.RelBoxTail(src, old(pos), relType), pos)
    {
      var _ := ReadWhitespace();
      var props :- ReadOptPropertyMap();
      var _ := ReadWhitespace();
      var _ :- ReadChar(']');
      return Ok(Entities.RelBox(relType, props));
    }

    /** readRelationshipBox, with the name test corrected (see
        Entities.ReadRelationshipBox): '[', whitespace, a name and whitespace unless
        ':' follows, then the type and the optional property map. */
    method ReadRelationshipBox() returns (r: Result<Entities.RelBox, ParseError>)
      requires Valid()
      modifies this
      ensures Valid()
      ensures Agrees(r, Entities.ReadRelationshipBox(src, old(pos)), pos)
    {
      var _ :- ReadChar('[');
      var _ := ReadWhitespace();
      var colon := NextCharEquals(':');
      if !colon {
        var _ :- ReadName();
        var _ := ReadWhitespace();
      }
      r := ReadRelBoxRest();
    }
  
    /** readNode: the node literal, then `new AbstractNode(name, labels, properties)`,
        the source's next node. */
    method ReadNode(source: Graph.NodeSource) returns (r: Result<Nodes.AbstractNode, ParseError>)
      requires Valid() && source.Valid()
      modifies this, source
      ensures Valid() && source.Valid()
      ensures var spec := Entities.ReadNode(src, old(pos));
        (spec.Err? ==> r == Err(spec.error) && source.made == old(source.made)) &&
        (spec.Ok? ==>
           r.Ok? && pos == spec.value.1 && fresh(r.value) &&
           source.made == old(source.made) + [r.value] &&
           Born(r.value, Document.MakeNode(spec.value.0, old(source.count), |src|)))
    {
      var lit :- ReadNodeLit();
      var node := source.Make(lit, |src|);
      return Ok(node);
    }

    /** One segment of a path after node: an arrow, a relationship box, an arrow and
        the next node; "Lack of direction" when both arrows are plain. Returns the
        relationships the arrows ask for, and the next node. */
    method ReadSegment(node: Nodes.AbstractNode, ghost ne: Document.Entry, source: Graph.NodeSource)
      returns (r: Result<(seq<Graph.AbstractRelationship>, Nodes.AbstractNode), ParseError>)
      requires Valid() && source.Valid() && Born(node, ne) && node in source.made
      modifies this, source
      ensures Valid() && source.Valid() && Born(node, ne)
      ensures |old(source.made)| <= |source.made| && source.made[..|old(source.made)|] == old(source.made)
      ensures var spec := Document.Segment(src, old(pos), old(source.count), ne);
        (spec.Err? ==> r == Err(spec.error)) &&
        (spec.Ok? ==>
           r.Ok? && pos == spec.value.2 && source.count == old(source.count) + 1 &&
           r.value.1 in source.made && Born(r.value.1, spec.value.1) &&
           Shows(r.value.0, spec.value.0, source.made) && FreshFrom(r.value.0, 0))
      ensures MadeFresh(source, |old(source.made)|)
    {
      hide Entities.ReadArrow, Entities.ReadRelationshipBox, Entities.ReadNode;
      var arrow1 :- ReadArrow();
      var box :- ReadRelationshipBox();
      var arrow2 :- ReadArrow();
      ghost var count := source.count;
      ghost var nodeSpec := Entities.ReadNode(src, pos);
      var other :- ReadNode(source);
      ghost var lit := nodeSpec.value.0;
      if arrow1 == Entities.Undirected && arrow2 == Entities.Undirected {
        return Err(LackOfDirection);
      }
      var rels := NewRels(arrow1, box, arrow2, node, ne, other, Document.MakeNode(lit, count, |src|), source.made);
      return Ok((rels, other));
    }

    /** The relationships one segment adds: other to node when the first arrow is
        "<-", node to other when the second is "->". */
    method NewRels(arrow1: Entities.Arrow, box: Entities.RelBox, arrow2: Entities.Arrow,
                   node: Nodes.AbstractNode, ghost ne: Document.Entry,
                   other: Nodes.AbstractNode, ghost oe: Document.Entry, ghost made: seq<Nodes.AbstractNode>)
      returns (rels: seq<Graph.AbstractRelationship>)
      requires Born(node, ne) && Born(other, oe) && node != other && node in made && other in made
      ensures Shows(rels, Document.SegmentRels(arrow1, box, arrow2, ne, oe), made)
      ensures forall k :: 0 <= k < |rels| ==> fresh(rels[k])
    {
      var props := box.props.GetOr(map[]);
      rels := [];
      if arrow1 == Entities.Incoming {
        var rel := new Graph.AbstractRelationship(other, box.relType, props, node);
        rels := rels + [rel];
      }
      if arrow2 == Entities.Outgoing {
        var rel := new Graph.AbstractRelationship(node, box.relType, props, other);
        rels := rels + [rel];
      }
    }

    /** The segment loop of a path: while '<' or '-' follows, a segment, whose next
        node is the one the following segment starts from. Returns the relationships
        gathered and the last node. */
    method ReadPath(first: Nodes.AbstractNode, ghost fe: Document.Entry, source: Graph.NodeSource)
      returns (r: Result<(seq<Graph.AbstractRelationship>, Nodes.AbstractNode), ParseError>)
      requires Valid() && source.Valid() && Born(first, fe) && first in source.made
      modifies this, source
      ensures Valid() && source.Valid()
      ensures |old(source.made)| <= |source.made| && source.made[..|old(source.made)|] == old(source.made)
      ensures var spec := Document.PathLoop(src, old(pos), old(source.count), fe, []);
        (spec.Err? ==> r == Err(spec.error)) &&
        (spec.Ok? ==>
           r.Ok? && pos == spec.value.2 && source.count == spec.value.3 &&
           Shows(r.value.0, spec.value.0, source.made) &&
           Born(r.value.1, spec.value.1) && r.value.1 in source.made &&
           FreshFrom(r.value.0, 0))
      ensures MadeFresh(source, |old(source.made)|)
    {
      hide Document.Segment;
      ghost var spec := Document.PathLoop(src, pos, source.count, fe, []);
      var node := first;
      ghost var ne := fe;
      var rels: seq<Graph.AbstractRelationship> := [];
      ghost var prs: seq<Document.PathRel> := [];
      var more := NextIsArrow();
      while more
        invariant Valid() && source.Valid()
        invariant |old(source.made)| <= |source.made| && source.made[..|old(source.made)|] == old(source.made)
        invariant more <==> Scan.NextIs(src, pos, '<') || Scan.NextIs(src, pos, '-')
        invariant Document.PathLoop(src, pos, source.count, ne, prs) == spec
        invariant Born(node, ne) && node in source.made
        invariant Shows(rels, prs, source.made)
        invariant FreshFrom(rels, 0) && MadeFresh(source, |old(source.made)|)
        decreases |src| - pos
      {
        assert spec == Document.PathTurn(src, pos, source.count, ne, prs);
        ghost var made1 := source.made;
        ghost var prs1, ne1;
        var next;
        next, prs1, ne1 := ReadTurn(node, ne, rels, prs, source);
        forall k | |old(source.made)| <= k < |source.made|
          ensures fresh(source.made[k])
        {
          if k < |made1| {
            assert source.made[k] == made1[k];
          }
        }
        if next.Err? {
          return Err(next.error);
        }
        forall k | 0 <= k < |next.value.0|
          ensures fresh(next.value.0[k])
        {
          if k < |rels| {
            assert next.value.0[k] == next.value.0[..|rels|][k];
          }
        }
        rels, prs, node, ne := next.value.0, prs1, next.value.1, ne1;
        more := NextIsArrow();
      }
      return Ok((rels, node));
    }

    /** One turn of the segment loop: a segment read from `node`, its relationships
        appended to `rels`, and the node it ends at. */
    method ReadTurn(node: Nodes.AbstractNode, ghost ne: Document.Entry,
                    rels: seq<Graph.AbstractRelationship>, ghost prs: seq<Document.PathRel>,
                    source: Graph.NodeSource)
      returns (r: Result<(seq<Graph.AbstractRelationship>, Nodes.AbstractNode), ParseError>,
               ghost prs1: seq<Document.PathRel>, ghost ne1: Document.Entry)
      requires Valid() && source.Valid()
      requires Born(node, ne) && node in source.made
      requires Shows(rels, prs, source.made)
      modifies this, source
      ensures Valid() && source.Valid()
      ensures |old(source.made)| <= |source.made| && source.made[..|old(source.made)|] == old(source.made)
      ensures var spec := Document.PathTurn(src, old(pos), old(source.count), ne, prs);
        (r.Err? ==> spec == Err(r.error)) &&
        (r.Ok? ==>
           pos > old(pos) && spec == Document.PathLoop(src, pos, source.count, ne1, prs1) &&
           Born(r.value.1, ne1) && r.value.1 in source.made &&
           Shows(r.value.0, prs1, source.made) &&
           |rels| <= |r.value.0| && r.value.0[..|rels|] == rels && FreshFrom(r.value.0, |rels|))
      ensures MadeFresh(source, |old(source.made)|)
    {
      hide Entities.ReadArrow, Entities.ReadRelationshipBox, Entities.ReadNode;
      ghost var made0 := source.made;
      ghost var seg := Document.Segment(src, pos, source.count, ne);
      var next := ReadSegment(node, ne, source);
      if next.Err? {
        return Err(next.error), prs, ne;
      }
      ShowsGrow(rels, prs, made0, source.made);
      ShowsConcat(rels, prs, next.value.0, seg.value.0, source.made);
      r, prs1, ne1 := Ok((rels + next.value.0, next.value.1)), prs + seg.value.0, seg.value.1;
    }

    /** Whether '<' or '-' follows: the condition of the segment loop. */
    method NextIsArrow() returns (b: bool)
      requires Valid()
      modifies this
      ensures Valid() && pos == old(pos)
      ensures b <==> Scan.NextIs(src, pos, '<') || Scan.NextIs(src, pos, '-')
    {
      var lt := NextCharEquals('<');
      var minus := NextCharEquals('-');
      b := lt || minus;
    }

    /** What a path statement reads: readNode, the segment loop, readWhitespace and
        the optional property map. Returns the relationships, the last node and the
        properties, with the entries prs and last that model them. */
    method ReadPathParts(source: Graph.NodeSource)
      returns (r: Result<(seq<Graph.AbstractRelationship>, Nodes.AbstractNode, Option<Props>), ParseError>,
               ghost prs: seq<Document.PathRel>, ghost last: Document.Entry)
      requires Valid() && source.Valid()
      modifies this, source
      ensures Valid() && source.Valid()
      ensures |old(source.made)| <= |source.made| && source.made[..|old(source.made)|] == old(source.made)
      ensures var spec := Document.PathParts(src, old(pos), old(source.count));
        (spec.Err? ==> r == Err(spec.error)) &&
        (spec.Ok? ==>
           r.Ok? && spec.value == (prs, last, r.value.2, pos, source.count) &&
           Gathered(r.value.0, r.value.1, prs, last, source.made) &&
           AllFresh(Created(r.value.0, r.value.1)))
    {
      hide Entities.ReadNode, Document.PathTail;
      ghost var lo := source.count;
      ghost var made0 := source.made;
      ghost var spec := Document.PathParts(src, pos, lo);
      ghost var nspec := Entities.ReadNode(src, pos);
      prs, last := [], Document.Entry(0, Nodes.NewNode(None, None, None, ""));
      var first := ReadNode(source);
      if first.Err? {
        return Err(first.error), prs, last;
      }
      ghost var fe := Document.MakeNode(nspec.value.0, lo, |src|);
      assert spec == Document.PathTail(src, pos, lo + 1, fe);
      ghost var made1 := source.made;
      r, prs, last := ReadPathTail(first.value, fe, source, lo);
      PrefixOfPrefix(made0, made1, source.made);
    }

    /** The part of a path statement after its first node: the segment loop,
        readWhitespace and the optional property map. */
    method ReadPathTail(first: Nodes.AbstractNode, ghost fe: Document.Entry, source: Graph.NodeSource, ghost lo: nat)
      returns (r: Result<(seq<Graph.AbstractRelationship>, Nodes.AbstractNode, Option<Props>), ParseError>,
               ghost prs: seq<Document.PathRel>, ghost last: Document.Entry)
      requires Valid() && source.Valid() && Born(first, fe) && first in source.made
      requires lo == fe.serial && lo + 1 == |source.made| && source.made[lo] == first
      modifies this, source
      ensures Valid() && source.Valid()
      ensures |old(source.made)| <= |source.made| && source.made[..|old(source.made)|] == old(source.made)
      ensures MadeFresh(source, |old(source.made)|)
      ensures var spec := Document.PathTail(src, old(pos), old(source.count), fe);
        (spec.Err? ==> r == Err(spec.error)) &&
        (spec.Ok? ==>
           r.Ok? && spec.value == (prs, last, r.value.2, pos, source.count) &&
           Gathered(r.value.0, r.value.1, prs, last, source.made) &&
           FreshBut(Created(r.value.0, r.value.1), first))
    {
      ghost var pspec := Document.PathLoop(src, pos, source.count, fe, []);
      Document.PathLoopNew(src, pos, source.count, fe, [], lo);
      Document.PathTailSteps(src, pos, source.count, fe);
      hide Document.PathTail, Document.PathLoop, Entities.OptPropertyMap, Created, FreshBut;
      prs, last := [], fe;
      var path := ReadPath(first, fe, source);
      if path.Err? {
        return Err(path.error), prs, last;
      }
      prs, last := pspec.value.0, pspec.value.1;
      CreatedFresh(path.value.0, path.value.1, source, prs, last, lo);
      var props := ReadTrailingMap();
      if props.Err? {
        return Err(props.error), prs, last;
      }
      r := Ok((path.value.0, path.value.1, props.value));
    }

    /** The end of a path statement: readWhitespace, then the optional property map. */
    method ReadTrailingMap() returns (r: Result<Option<Props>, ParseError>)
      requires Valid()
      modifies this
      ensures Valid()
      ensures Agrees(r, Entities.OptPropertyMap(src, Scan.WsEnd(src, old(pos))), pos)
    {
      var _ := ReadWhitespace();
      r := ReadOptPropertyMap();
    }

    /** A path statement of readSubgraph: read, then attached to the subgraph. */
    method ReadPathStatement(g: Graph.Subgraph, source: Graph.NodeSource) returns (r: Result<(), ParseError>)
      requires Valid() && source.Valid() && g.Valid() && g.MadeBy(source)
      modifies this, source, g, g.nodes.Values
      ensures Valid() && source.Valid() && g.Valid() && g.MadeBy(source)
      ensures |old(source.made)| <= |source.made| && source.made[..|old(source.made)|] == old(source.made)
      ensures forall o :: o in g.nodes.Values ==> o in old(g.nodes.Values) || fresh(o)
      ensures Done(Document.PathStatement(src, old(pos), old(source.count), old(g.Doc())), r, g.Doc(), pos, source.count)
    {
      hide Document.PathParts, Document.Attach;
      ghost var lo := source.count;
      ghost var made0 := source.made;
      ghost var doc0 := g.Doc();
      ghost var pp := Document.PathParts(src, pos, lo);
      assert Document.PathStatement(src, pos, lo, doc0) ==
        if pp.Err? then Err(pp.error) else Ok((Document.Attach(doc0, pp.value.0, pp.value.1, pp.value.2), pp.value.3, pp.value.4));
      var parts, prs, last := ReadPathParts(source);
      MadeByGrows(g, made0, source);
      if parts.Err? {
        return Err(parts.error);
      }
      var rs, node, props := parts.value.0, parts.value.1, parts.value.2;
      ghost var created := Created(rs, node);
      ghost var values := g.nodes.Values;
      assert node in created;
      ApplyPath(g, rs, node, props, prs, last, source, created);
      forall o | o in g.nodes.Values
        ensures o in old(g.nodes.Values) || fresh(o)
      {
        if o !in values {
          assert o in created;
        }
      }
      r := Ok(());
    }

    /** The key loop of a hook declaration: until '=' follows, a name, whitespace,
        ':' and whitespace. */
    method ReadHookKeys() returns (r: Result<seq<string>, ParseError>)
      requires Valid()
      modifies this
      ensures Valid()
      ensures Agrees(r, Document.HookKeys(src, old(pos), []), pos)
    {
      hide Entities.ReadName, Document.HookKeys;
      ghost var spec := Document.HookKeys(src, pos, []);
      var keys: seq<string> := [];
      var done := NextCharEquals('=');
      while !done
        invariant Valid()
        invariant done <==> Scan.NextIs(src, pos, '=')
        invariant Document.HookKeys(src, pos, keys) == spec
        decreases |src| - pos
      {
        Document.HookKeysStep(src, pos, keys);
        var key :- ReadName();
        var _ := ReadWhitespace();
        var _ :- ReadChar(':');
        var _ := ReadWhitespace();
        keys := keys + [key];
        done := NextCharEquals('=');
      }
      Document.HookKeysEnd(src, pos, keys);
      return Ok(keys);
    }

    /** The head of a hook declaration: ':', the label, ':', the keys, "=>" and an
        optional '?'. Returns the label, the keys and whether the hook is optional. */
    method ReadHookHead() returns (r: Result<(string, seq<string>, bool), ParseError>)
      requires Valid()
      modifies this
      ensures Valid()
      ensures var spec := Document.HookHead(src, old(pos));
        (spec.Err? ==> r == Err(spec.error)) &&
        (spec.Ok? ==> r == Ok((spec.value.0, spec.value.1, spec.value.2)) && pos == spec.value.3)
    {
      hide Entities.ReadName, Document.HookTail;
      var _ :- ReadChar(':');
      var _ := ReadWhitespace();
      var hook :- ReadName();
      var _ := ReadWhitespace();
      var _ :- ReadChar(':');
      var _ := ReadWhitespace();
      r := ReadHookTail(hook);
    }

    /** The rest of the head, after the label: the keys, "=>" and an optional '?'. */
    method ReadHookTail(hook: string) returns (r: Result<(string, seq<string>, bool), ParseError>)
      requires Valid()
      modifies this
      ensures Valid()
      ensures var spec := Document.HookTail(src, old(pos), hook);
        (spec.Err? ==> r == Err(spec.error)) &&
        (spec.Ok? ==> r == Ok((spec.value.0, spec.value.1, spec.value.2)) && pos == spec.value.3)
    {
      hide Document.HookKeys;
      var keys :- ReadHookKeys();
      var _ := ReadChar('=');  // cannot fail: the key loop stopped at '='
      var _ :- ReadChar('>');
      var optional := NextCharEquals('?');
      if optional {
        var _ := ReadChar('?');
      }
      return Ok((hook, keys, optional));
    }

    /** A hook declaration of readSubgraph: its head, then the node, merged into the
        subgraph; the hook is set on the node mergeNode returns. */
    method ReadHookStatement(g: Graph.Subgraph, source: Graph.NodeSource) returns (r: Result<(), ParseError>)
      requires Valid() && source.Valid() && g.Valid() && g.MadeBy(source)
      modifies this, source, g, g.nodes.Values
      ensures Valid() && source.Valid() && g.Valid() && g.MadeBy(source)
      ensures |old(source.made)| <= |source.made| && source.made[..|old(source.made)|] == old(source.made)
      ensures forall o :: o in g.nodes.Values ==> o in old(g.nodes.Values) || fresh(o)
      ensures Done(Document.HookStatement(src, old(pos), old(source.count), old(g.Doc())), r, g.Doc(), pos, source.count)
    {
      hide Document.HookHead, Document.HookNode;
      var head :- ReadHookHead();
      r := ReadHookNode(g, source, head.0, head.1, head.2);
    }

    /** The node of a hook declaration, merged into the subgraph, with the hook set
        on the node stored under its name. */
    method ReadHookNode(g: Graph.Subgraph, source: Graph.NodeSource, hook: string, keys: seq<string>, optional: bool)
      returns (r: Result<(), ParseError>)
      requires Valid() && source.Valid() && g.Valid() && g.MadeBy(source)
      modifies this, source, g, g.nodes.Values
      ensures Valid() && source.Valid() && g.Valid() && g.MadeBy(source)
      ensures |old(source.made)| <= |source.made| && source.made[..|old(source.made)|] == old(source.made)
      ensures forall o :: o in g.nodes.Values ==> o in old(g.nodes.Values) || fresh(o)
      ensures Done(Document.HookNode(src, old(pos), old(source.count), old(g.Doc()), hook, keys, optional),
                   r, g.Doc(), pos, source.count)
    {
      hide Entities.ReadNode, Document.HookDoc, Document.MergeDoc, Document.MakeNode, Graph.Subgraph.Doc;
      ghost var lo := source.count;
      ghost var made0 := source.made;
      ghost var doc0 := g.Doc();
      ghost var nspec := Entities.ReadNode(src, pos);
      ghost var spec := Document.HookNode(src, pos, lo, doc0, hook, keys, optional);
      assert nspec.Err? ==> spec == Err(nspec.error);
      assert nspec.Ok? ==> spec == Ok((Document.HookDoc(doc0, Document.MakeNode(nspec.value.0, lo, |src|), hook, keys, optional),
                                       nspec.value.1, lo + 1));
      hide Document.HookNode;
      var node :- ReadNode(source);
      MadeByGrows(g, made0, source);
      ghost var e := Document.MakeNode(nspec.value.0, lo, |src|);
      assert g.Doc() == doc0 && source.count == lo + 1;
      ghost var values := g.nodes.Values;
      Build.MergeHook(g, node, e, hook, keys, optional, source);
      forall o | o in g.nodes.Values
        ensures o in old(g.nodes.Values) || fresh(o)
      {
        if o !in values {
          assert o == node;
        }
      }
      r := Ok(());
    }

    /** A comment statement: `subgraph.addComment(readComment())`. */
    method ReadCommentStatement(g: Graph.Subgraph, ghost count: nat) returns (r: Result<(), ParseError>)
      requires Valid()
      modifies this, g
      ensures Valid() && g.nodes == old(g.nodes)
      ensures Done(Document.CommentStatement(src, old(pos), count, old(g.Doc())), r, g.Doc(), pos, count)
    {
      hide Entities.ReadComment;
      var c :- ReadComment();
      g.AddComment(c);
      r := Ok(());
    }

    /** One round of the readSubgraph loop, before its closing readWhitespace: the
        lookahead picks the statement; r tells whether it was a boundary. */
    method ReadStatement(g: Graph.Subgraph, source: Graph.NodeSource) returns (r: Result<bool, ParseError>)
      requires Valid() && pos < |src| && source.Valid() && g.Valid() && g.MadeBy(source)
      modifies this, source, g, g.nodes.Values
      ensures Valid() && source.Valid() && g.Valid() && g.MadeBy(source)
      ensures |old(source.made)| <= |source.made| && source.made[..|old(source.made)|] == old(source.made)
      ensures forall o :: o in g.nodes.Values ==> o in old(g.nodes.Values) || fresh(o)
      ensures Stepped(Document.Statement(src, old(pos), old(source.count), old(g.Doc())), r, g.Doc(), pos, source.count)
    {
      hide Document.PathStatement, Document.HookStatement, Document.CommentStatement, Entities.ReadBoundary, Graph.Subgraph.Doc;
      var path := NextCharEquals('(');
      if path {
        var p := ReadPathStatement(g, source);
        r := if p.Ok? then Ok(false) else Err(p.error);
        return;
      }
      var hook := NextCharEquals(':');
      if hook {
        var h := ReadHookStatement(g, source);
        r := if h.Ok? then Ok(false) else Err(h.error);
        return;
      }
      var comment := NextCharEquals('/');
      if comment {
        var c := ReadCommentStatement(g, source.count);
        r := if c.Ok? then Ok(false) else Err(c.error);
        return;
      }
      var boundary := NextCharEquals('~');
      if boundary {
        var b := ReadBoundary();
        r := if b.Ok? then Ok(true) else Err(b.error);
        return;
      }
      r := Err(UnexpectedCharacter);
    }

    /** readSubgraph: leading whitespace, then statements, each followed by
        whitespace, until the input is exhausted or a boundary is read, into a new
        subgraph whose value is what Document.ReadSubgraph says. */
    method ReadSubgraph(source: Graph.NodeSource) returns (r: Result<Graph.Subgraph, ParseError>)
      requires Valid() && source.Valid()
      modifies this, source
      ensures Valid() && source.Valid()
      ensures |old(source.made)| <= |source.made| && source.made[..|old(source.made)|] == old(source.made)
      ensures var spec := Document.ReadSubgraph(src, old(pos), old(source.count));
        (spec.Err? ==> r == Err(spec.error)) &&
        (spec.Ok? ==> r.Ok? && fresh(r.value) && r.value.Valid() && r.value.MadeBy(source) &&
                      r.value.Doc() == spec.value.0 && pos == spec.value.1 && source.count == spec.value.2)
    {
      hide Document.Statement, Graph.Subgraph.Doc;
      ghost var spec := Document.ReadSubgraph(src, pos, source.count);
      ghost var made0 := source.made;
      var g := new Graph.Subgraph();
      var _ := ReadWhitespace();
      var ended := false;
      var more := HasMore();
      while more && !ended
        invariant Valid() && source.Valid() && fresh(g) && g.Valid() && g.MadeBy(source)
        invariant |made0| <= |source.made| && source.made[..|made0|] == made0
        invariant forall o :: o in g.nodes.Values ==> fresh(o)
        invariant more <==> pos < |src|
        invariant !ended ==> Document.DocLoop(src, pos, source.count, g.Doc()) == spec
        invariant ended ==> spec == Ok((g.Doc(), pos, source.count))
        decreases |src| - pos
      {
        var s := ReadStatement(g, source);
        if s.Err? {
          return Err(s.error);
        }
        ended := s.value;
        var _ := ReadWhitespace();
        more := HasMore();
      }
      return Ok(g);
    }
  }
}
