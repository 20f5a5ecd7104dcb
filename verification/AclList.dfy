/**
The linked field list of a filter (acl.c): adding a field at the tail, and compiling the
list into the rule array, word by word.
*/
module AclList {
  import opened AclFields

  /** filter_fieldTemplateIndex, cut to filter_fieldSize entries. */
  const DEFAULT_POSITIONS: seq<seq<nat>> := [
    [0x00, 0x01, 0x02], [0x03, 0x04, 0x05], [0x06], [0x43], [0x44],
    [0x10, 0x11], [0x12, 0x13], [0x24], [0x25], [0x35], [0x35],
    [0x20, 0x21, 0x22, 0x23], [0x30, 0x31, 0x32, 0x33], [0x26], [0x27],
    [0x14], [0x15], [0x16], [0x14], [0x15], [0x14], [0x14], [0x14],
    [0x40], [0x41], [0x42],
    [0x14], [0x15], [0x16], [0x22], [0x23], [0x24], [0x25], [0x26],
    [0x27], [0x32], [0x33], [0x34], [0x35], [0x36], [0x37], [0x47],
    [0xFF, 0, 0, 0, 0, 0, 0, 0]
  ]

  const PATTERN_MATCH_TYPE := 42

  predicate PositionsInRange(ps: seq<nat>) {
    forall i :: 0 <= i < |ps| ==> InTemplates(ps[i])
  }

  /** Every default fits the five templates, except that of the pattern-match field. */
  lemma DefaultsInRange(t: nat)
    requires t < FIELD_END
    ensures |DEFAULT_POSITIONS| == FIELD_END && 0 < |DEFAULT_POSITIONS[t]| <= 8
    ensures PositionsInRange(DEFAULT_POSITIONS[t]) <==> t != PATTERN_MATCH_TYPE
  {
    if t == PATTERN_MATCH_TYPE {
      assert DEFAULT_POSITIONS[t][0] == 0xFF;
    }
  }

  /** The member of the pattern union that each case of the switch on the field type reads. */
  predicate Belongs(t: nat, p: Pattern) {
    if t <= 1 then p.Mac?
    else if t == 2 then p.EtherType?
    else if t <= 4 then p.Tag?
    else if t <= 6 then p.Ipv4Address?
    else if t <= 8 then p.Ipv4Byte?
    else if t == 9 then p.Ipv4Flag?
    else if t == 10 then p.Ipv4Offset?
    else if t <= 12 then p.Ipv6Address?
    else if t == 13 then p.Ipv6TrafficClass?
    else if t == 14 then p.Ipv6NextHeader?
    else if t == 15 || t == 16 || t == 18 || t == 19 then p.Port?
    else if t == 17 then p.TcpFlag?
    else if t == 20 then p.IcmpCode?
    else if t == 21 then p.IcmpType?
    else if t == 22 then p.IgmpType?
    else if t == PATTERN_MATCH_TYPE then p.PatternMatch?
    else p.Plain?
  }

  /** A field that is added without positions compiles, unless it is a pattern-match field. */
  lemma DefaultsCompile(t: nat, p: Pattern)
    requires t < FIELD_END && Belongs(t, p) && Shaped(p)
    ensures ValidField(Field(DEFAULT_POSITIONS[t], p)) <==> t != PATTERN_MATCH_TYPE
  {
    DefaultsInRange(t);
    DefaultCounts(t);
    var ps := DEFAULT_POSITIONS[t];
    if t == PATTERN_MATCH_TYPE {
      assert ps[0] in ps;
    } else {
      forall q | q in ps
        ensures InTemplates(q)
      {
        var i :| 0 <= i < |ps| && ps[i] == q;
      }
    }
  }

  lemma DefaultCounts(t: nat)
    requires t < FIELD_END
    ensures t <= 1 ==> |DEFAULT_POSITIONS[t]| == 3
    ensures t == 5 || t == 6 ==> |DEFAULT_POSITIONS[t]| == 2
  {
  }

  datatype AddStatus = Ok | NullPointer | EntryIndex

  class FieldNode {
    const fieldType: nat
    /** fieldTemplateIdx[..fieldTemplateNo] */
    var positions: seq<nat>
    const pattern: Pattern
    var next: FieldNode?

    constructor (fieldType: nat, positions: seq<nat>, pattern: Pattern)
      requires Belongs(fieldType, pattern) && Shaped(pattern)
      ensures this.fieldType == fieldType && this.positions == positions && this.pattern == pattern
      ensures next == null && Typed()
    {
      this.fieldType, this.positions, this.pattern, next := fieldType, positions, pattern, null;
    }

    /** The pattern is the one the type calls for. */
    predicate Typed() { Belongs(fieldType, pattern) && Shaped(pattern) }

    function ToField(): Field
      reads this`positions
    {
      Field(positions, pattern)
    }
  }

  ghost function FieldsOf(nodes: seq<FieldNode>): (fs: seq<Field>)
    reads nodes
    ensures |fs| == |nodes|
  {
    seq(|nodes|, i requires 0 <= i < |nodes| reads nodes => nodes[i].ToField())
  }

  /** Every node points to the one behind it, and the last one to `end`. */
  ghost predicate Linked(nodes: seq<FieldNode>, end: FieldNode?)
    reads nodes`next
  {
    && (forall i, j :: 0 <= i < j < |nodes| ==> nodes[i] != nodes[j])
    && forall i :: 0 <= i < |nodes| ==> nodes[i].Typed() && nodes[i].next == NodeAfter(nodes, i, end)
  }

  function NodeAfter(nodes: seq<FieldNode>, i: nat, end: FieldNode?): FieldNode? {
    if i + 1 < |nodes| then nodes[i + 1] else end
  }

  ghost predicate HavePositions(nodes: seq<FieldNode>)
    reads nodes`positions
  {
    forall i :: 0 <= i < |nodes| ==> nodes[i].positions != []
  }

  lemma LinkedJoins(a: seq<FieldNode>, b: seq<FieldNode>)
    requires b != [] && Linked(a, b[0]) && Linked(b, null) && forall i :: 0 <= i < |b| ==> b[i] !in a
    ensures Linked(a + b, null)
  {
    var ab := a + b;
    forall i | 0 <= i < |ab|
      ensures ab[i].Typed() && ab[i].next == NodeAfter(ab, i, null)
    {
      if i < |a| {
        assert ab[i] == a[i] && NodeAfter(ab, i, null) == NodeAfter(a, i, b[0]);
      } else {
        assert ab[i] == b[i - |a|] && NodeAfter(ab, i, null) == NodeAfter(b, i - |a|, null);
      }
    }
  }

  class FilterCfg {
    var fieldHead: FieldNode?
    ghost var nodes: seq<FieldNode>

    constructor ()
      ensures Valid() && nodes == []
    {
      fieldHead, nodes := null, [];
    }

    /** A list without a defect has only valid fields. */
    lemma SoundFields()
      requires Valid()
      ensures FirstDefect(Fields()).Sound? <==> AllValid(Fields())
    {
      SoundIsAllValid(Fields());
    }

    ghost predicate Valid()
      reads this, nodes
    {
      fieldHead == NodeAt(0) && Linked(nodes, null) && HavePositions(nodes)
    }

    ghost function NodeAt(i: nat): FieldNode?
      reads this
    {
      if i < |nodes| then nodes[i] else null
    }

    ghost function Fields(): (fs: seq<Field>)
      reads this, nodes
      ensures |fs| == |nodes|
    {
      FieldsOf(nodes)
    }

    /** `chain` are `node` and the nodes that hang on it, none of them in this list. */
    ghost predicate Fits(node: FieldNode, chain: seq<FieldNode>)
      reads this, chain
    {
      && chain != [] && chain[0] == node && Linked(chain, null) && HavePositions(chain[1..])
      && forall i :: 0 <= i < |chain| ==> chain[i] !in nodes
    }

    /** The three cases of the source: an empty list, a list of one, a walk to the tail. */
    method Append(node: FieldNode)
      requires Valid()
      modifies this`fieldHead, nodes`next
      ensures fieldHead == if nodes == [] then node else old(fieldHead)
      ensures forall i :: 0 <= i < |nodes| ==> nodes[i].next == NodeAfter(nodes, i, node)
    {
      if fieldHead == null {
        fieldHead := node;
      } else if fieldHead.next == null {
        assert nodes == [fieldHead];
        fieldHead.next := node;
      } else {
        var tail := fieldHead.next;
        ghost var i := 1;
        while tail.next != null
          invariant 0 < i < |nodes| && tail == nodes[i]
          decreases |nodes| - i
        {
          tail, i := tail.next, i + 1;
        }
        tail.next := node;
      }
    }

    /** The list together with the chain that was linked behind it. */
    ghost method Adopt(chain: seq<FieldNode>)
      requires chain != [] && Linked(nodes, chain[0]) && Linked(chain, null)
      requires forall i :: 0 <= i < |chain| ==> chain[i] !in nodes
      requires HavePositions(nodes) && HavePositions(chain) && fieldHead == (nodes + chain)[0]
      modifies this`nodes
      ensures Valid() && nodes == old(nodes) + chain
    {
      LinkedJoins(nodes, chain);
      nodes := nodes + chain;
    }

    /** Append, with the list that it makes if the chain fits. */
    method AppendChain(node: FieldNode, ghost chain: seq<FieldNode>)
      requires Valid() && node.positions != []
      modifies this, nodes`next
      ensures old(nodes) <= nodes && fieldHead == if old(nodes) == [] then node else old(fieldHead)
      ensures forall i :: 0 <= i < |old(nodes)| ==> nodes[i].next == NodeAfter(old(nodes), i, node)
      ensures old(Fits(node, chain)) ==> Valid() && nodes == old(nodes) + chain
    {
      ghost var fits := Fits(node, chain);
      Append(node);
      if fits {
        Adopt(chain);
      }
    }
  }

  /**
  _rtk_filter_igrAcl_field_add: default positions if the caller gave none, then append. `chain`
  are the field and the fields that hang on it. A field that is in the list already, or that
  leads back into it, makes the list go round in circles: it is no list any more.
  */
  method FieldAdd(cfg: FilterCfg?, node: FieldNode?, ghost chain: seq<FieldNode>) returns (r: AddStatus)
    requires cfg != null ==> cfg.Valid()
    modifies cfg, (if cfg == null then [] else cfg.nodes)`next, (if node == null then [] else [node])`positions
    ensures r.NullPointer? <==> cfg == null || node == null
    ensures r.EntryIndex? <==> cfg != null && node != null && node.fieldType >= FIELD_END
    ensures cfg != null && !r.Ok? ==> cfg.Valid() && cfg.Fields() == old(cfg.Fields())
    ensures r.Ok? ==> node.positions == if old(node.positions) == [] then DEFAULT_POSITIONS[node.fieldType]
                                        else old(node.positions)
    ensures r.Ok? ==> old(cfg.nodes) <= cfg.nodes
    ensures r.Ok? ==> cfg.fieldHead == if old(cfg.nodes) == [] then node else old(cfg.fieldHead)
    ensures r.Ok? ==> forall i :: 0 <= i < |old(cfg.nodes)| ==> cfg.nodes[i].next == NodeAfter(old(cfg.nodes), i, node)
    ensures r.Ok? && old(cfg.Fits(node, chain)) ==>
              cfg.Valid() && cfg.nodes == old(cfg.nodes) + chain
  {
    if cfg == null || node == null { return NullPointer; }
    if node.fieldType >= FIELD_END { return EntryIndex; }
    if node.positions == [] {
      node.positions := DEFAULT_POSITIONS[node.fieldType];
      DefaultsInRange(node.fieldType);
    }
    cfg.AppendChain(node, chain);
    return Ok;
  }

  /** The templates a field uses become valid. */
  method MarkTemplates(valid: array<bool>, f: Field)
    requires valid.Length == TEMPLATES && ValidField(f)
    modifies valid
    ensures forall t :: 0 <= t < TEMPLATES ==> valid[t] == (old(valid[t]) || Marks(f, t))
  {
    for i := 0 to |f.positions|
      invariant forall t :: 0 <= t < TEMPLATES ==>
                  valid[t] == (old(valid[t]) || exists k :: 0 <= k < i && TemplateOf(f.positions[k]) == t)
    {
      assert f.positions[i] in f.positions;
      valid[TemplateOf(f.positions[i])] := true;
    }
    forall t | 0 <= t < TEMPLATES
      ensures Marks(f, t) <==> exists k :: 0 <= k < |f.positions| && TemplateOf(f.positions[k]) == t
    {
      if Marks(f, t) {
        var p :| p in f.positions && TemplateOf(p) == t;
        var k :| 0 <= k < |f.positions| && f.positions[k] == p;
        assert TemplateOf(f.positions[k]) == t;
      } else {
        forall k | 0 <= k < |f.positions|
          ensures TemplateOf(f.positions[k]) != t
        {
          assert f.positions[k] in f.positions;
        }
      }
    }
  }

  /** The words of a field, one after the other. */
  method PokeWords(cells: array<Cell>, f: Field)
    requires cells.Length == TEMPLATES * WORDS && ValidField(f)
    modifies cells
    ensures cells[..] == RunPokes(old(cells[..]), Pokes(f))
  {
    for i := 0 to |f.positions|
      invariant cells[..] == RunPokes(old(cells[..]), Pokes(f)[..i])
    {
      var p := PokeAt(f, i);
      assert Pokes(f)[..i + 1][..i] == Pokes(f)[..i] && Pokes(f)[i] == p;
      assert forall q :: q in Pokes(f)[..i + 1] ==> q in Pokes(f);
      cells[p.cell] := Poked(cells[p.cell], p);
    }
    assert Pokes(f)[..|f.positions|] == Pokes(f);
  }

  /** _rtk_filter_igrAcl_writeDataField on the template array. */
  method WriteDataField(cells: array<Cell>, valid: array<bool>, f: Field)
    requires cells.Length == TEMPLATES * WORDS && valid.Length == TEMPLATES && ValidField(f)
    modifies cells, valid
    ensures Rules(cells[..], valid[..]) == Applied(Rules(old(cells[..]), old(valid[..])), f)
  {
    MarkTemplates(valid, f);
    assert valid[..] == Applied(Rules(old(cells[..]), old(valid[..])), f).valid;
    PokeWords(cells, f);
  }

  /** One more field at the end of the list. */
  lemma {:induction false} CompileSnoc(r: Rules, fs: seq<Field>, f: Field)
    requires r.Sized() && AllValid(fs) && ValidField(f)
    ensures AllValid(fs + [f]) && Compile(r, fs + [f]) == Applied(Compile(r, fs), f)
    decreases |fs|
  {
    if fs == [] {
      assert fs + [f] == [f] && [f][1..] == [];
      assert Compile(Applied(r, f), []) == Applied(r, f);
    } else {
      assert (fs + [f])[0] == fs[0] && (fs + [f])[1..] == fs[1..] + [f];
      assert forall g :: g in fs[1..] ==> g in fs;
      CompileSnoc(Applied(r, fs[0]), fs[1..], f);
    }
  }

  /** What is wrong with the first field of the list that is not sound. */
  function FirstDefect(fs: seq<Field>): Defect {
    if fs == [] then Sound
    else
      var before := FirstDefect(fs[..|fs| - 1]);
      if before.Sound? then DefectOf(fs[|fs| - 1]) else before
  }

  lemma {:induction false} DefectStays(fs: seq<Field>, i: nat)
    requires i <= |fs| && !FirstDefect(fs[..i]).Sound?
    ensures FirstDefect(fs) == FirstDefect(fs[..i])
    decreases |fs|
  {
    if i == |fs| {
      assert fs[..i] == fs;
    } else {
      assert fs[..|fs| - 1][..i] == fs[..i];
      DefectStays(fs[..|fs| - 1], i);
    }
  }

  lemma DefectHere(fs: seq<Field>, i: nat)
    requires i < |fs| && FirstDefect(fs[..i]).Sound?
    ensures FirstDefect(fs[..i + 1]) == DefectOf(fs[i])
    ensures !DefectOf(fs[i]).Sound? ==> FirstDefect(fs) == DefectOf(fs[i])
  {
    assert fs[..i + 1][..i] == fs[..i];
    if !DefectOf(fs[i]).Sound? {
      DefectStays(fs, i + 1);
    }
  }

  /** A list without a defect is one of valid fields. */
  lemma {:induction false} SoundIsAllValid(fs: seq<Field>)
    requires forall f :: f in fs ==> f.positions != [] && Shaped(f.pattern)
    ensures FirstDefect(fs).Sound? <==> AllValid(fs)
  {
    if fs == [] {
      assert AllValid(fs);
    } else {
      var front, f := fs[..|fs| - 1], fs[|fs| - 1];
      assert forall g :: g in fs <==> g in front || g == f;
      SoundIsAllValid(front);
      SoundIsValid(f);
    }
  }

  /** The arrays hold what the fields compile to. */
  ghost predicate CompiledSoFar(cells: seq<Cell>, valid: seq<bool>, fs: seq<Field>) {
    AllValid(fs) && Rules(cells, valid) == Compile(BLANK, fs)
  }

  method BlankArrays() returns (cells: array<Cell>, valid: array<bool>)
    ensures fresh(cells) && fresh(valid) && cells.Length == TEMPLATES * WORDS && valid.Length == TEMPLATES
    ensures CompiledSoFar(cells[..], valid[..], [])
  {
    cells := new Cell[TEMPLATES * WORDS](_ => Cell(0, 0));
    valid := new bool[TEMPLATES](_ => false);
    assert cells[..] == BLANK.cells && valid[..] == BLANK.valid;
  }

  lemma NextPrefix<T>(s: seq<T>, i: nat, x: T)
    requires i < |s| && s[i] == x
    ensures s[..i + 1] == s[..i] + [x]
  {
  }

  /** Field `i` of the list. */
  method CompileOne(cells: array<Cell>, valid: array<bool>, f: Field, ghost all: seq<Field>, ghost i: nat)
    requires cells.Length == TEMPLATES * WORDS && valid.Length == TEMPLATES && ValidField(f)
    requires i < |all| && all[i] == f && CompiledSoFar(cells[..], valid[..], all[..i])
    modifies cells, valid
    ensures CompiledSoFar(cells[..], valid[..], all[..i + 1])
  {
    CompileSnoc(BLANK, all[..i], f);
    NextPrefix(all, i, f);
    WriteDataField(cells, valid, f);
  }

  ghost predicate CleanSoFar(cells: seq<Cell>, valid: seq<bool>, all: seq<Field>, i: nat) {
    i <= |all| && CompiledSoFar(cells, valid, all[..i]) && FirstDefect(all[..i]).Sound?
  }

  lemma CleanToTheEnd(cells: seq<Cell>, valid: seq<bool>, all: seq<Field>, i: nat)
    requires i == |all| && CleanSoFar(cells, valid, all, i)
    ensures CompiledSoFar(cells, valid, all) && FirstDefect(all).Sound?
  {
    assert all[..|all|] == all;
  }

  /** Field `i` of the list, if it is sound. */
  method CompileSound(cells: array<Cell>, valid: array<bool>, f: Field, ghost all: seq<Field>, ghost i: nat)
    returns (defect: Defect)
    requires cells.Length == TEMPLATES * WORDS && valid.Length == TEMPLATES
    requires f.positions != [] && Shaped(f.pattern) && i < |all| && all[i] == f
    requires CleanSoFar(cells[..], valid[..], all, i)
    modifies cells, valid
    ensures !defect.Sound? ==> FirstDefect(all) == defect
    ensures defect.Sound? ==> CleanSoFar(cells[..], valid[..], all, i + 1)
  {
    DefectHere(all, i);
    defect := DefectOf(f);
    if defect.Sound? {
      SoundIsValid(f);
      CompileOne(cells, valid, f, all, i);
    }
  }

  /** What the walk needs to know of a node. */
  ghost predicate NodeHolds(node: FieldNode, f: Field, next: FieldNode?)
    reads node
  {
    node.ToField() == f && node.next == next && f.positions != [] && Shaped(f.pattern)
  }

  /** The walk over the nodes; `all` are their fields. */
  method CompileNodes(cfg: FilterCfg, head: FieldNode?, cells: array<Cell>, valid: array<bool>, ghost all: seq<Field>)
    returns (defect: Defect)
    requires head == cfg.NodeAt(0) && |all| == |cfg.nodes|
    requires forall k :: 0 <= k < |all| ==> NodeHolds(cfg.nodes[k], all[k], cfg.NodeAt(k + 1))
    requires cells.Length == TEMPLATES * WORDS && valid.Length == TEMPLATES
    requires CleanSoFar(cells[..], valid[..], all, 0)
    modifies cells, valid
    ensures defect == FirstDefect(all)
    ensures defect.Sound? ==> CompiledSoFar(cells[..], valid[..], all)
  {
    var node := head;
    ghost var i := 0;
    while node != null
      invariant i <= |all| && node == cfg.NodeAt(i)
      invariant CleanSoFar(cells[..], valid[..], all, i)
      decreases |all| - i
    {
      assert NodeHolds(node, all[i], cfg.NodeAt(i + 1));
      defect := CompileSound(cells, valid, node.ToField(), all, i);
      if !defect.Sound? { return; }
      node, i := node.next, i + 1;
    }
    CleanToTheEnd(cells[..], valid[..], all, i);
    defect := Sound;
  }

  /**
  The list walk at the start of cfg_add. A field with a position outside the templates, or with
  more positions than its pattern has data for, makes it use an array past its end; an IPv4
  address with more than two makes it shift too far. `defect` reports the first of these, and
  nothing is modelled beyond it.
  */
  method CompileList(cfg: FilterCfg) returns (defect: Defect, cells: array<Cell>, valid: array<bool>)
    requires cfg.Valid()
    ensures fresh(cells) && fresh(valid)
    ensures defect == FirstDefect(cfg.Fields())
    ensures defect.Sound? ==> CompiledSoFar(cells[..], valid[..], cfg.Fields())
  {
    cells, valid := BlankArrays();
    defect := CompileNodes(cfg, cfg.fieldHead, cells, valid, cfg.Fields());
  }
}
