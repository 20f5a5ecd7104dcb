/**
From the field list to the rule table: which packets pass the slots that cfg_add fills. The
words of a packet pass all slots of a filter exactly if the packet agrees with every field.
*/
module AclPackets {
  import opened AclActions
  import opened AclBits
  import opened AclConfig
  import opened AclDriver
  import opened AclFields
  import opened AclMatch

  /** The words of a packet that one template looks at pass the words of a slot. */
  predicate SlotPasses(s: Slot, words: seq<Word16>)
    requires SlotOk(s) && |words| == WORDS
  {
    forall w :: 0 <= w < WORDS ==> Missed(words[w], s.data.words[w], s.care.words[w]) == 0
  }

  predicate TemplateHits(words: seq<Word16>, cells: seq<Cell>)
    requires |words| == |cells| == WORDS
  {
    forall w :: 0 <= w < WORDS ==> Hits(words[w], cells[w])
  }

  lemma StoredWordHits(r: Rules, x: nat, c: Criteria, e: Env, w: nat, word: Word16, s: Slot, cell: Cell)
    requires r.Sized() && x < TEMPLATES && RuleFits(RuleOf(r, x, c, e)) && w < WORDS
    requires s == StoreRule(RuleOf(r, x, c, e)) && SlotOk(s) && cell == r.cells[x * WORDS + w]
    ensures Missed(word, s.data.words[w], s.care.words[w]) == Differing(word, cell.data, cell.care)
  {
    SlotDemands(RuleOf(r, x, c, e), w, word, s);
    assert RuleOf(r, x, c, e).data.words[w] == cell.data && RuleOf(r, x, c, e).care.words[w] == cell.care;
  }

  lemma StoredSlotPasses(r: Rules, x: nat, c: Criteria, e: Env, words: seq<Word16>, s: Slot)
    requires r.Sized() && x < TEMPLATES && RuleFits(RuleOf(r, x, c, e)) && |words| == WORDS
    requires s == StoreRule(RuleOf(r, x, c, e)) && SlotOk(s)
    ensures SlotPasses(s, words) <==> TemplateHits(words, r.cells[x * WORDS..x * WORDS + WORDS])
  {
    var cells := r.cells[x * WORDS..x * WORDS + WORDS];
    forall w | 0 <= w < WORDS
      ensures Missed(words[w], s.data.words[w], s.care.words[w]) == 0 <==> Hits(words[w], cells[w])
    {
      assert cells[w] == r.cells[x * WORDS + w];
      StoredWordHits(r, x, c, e, w, words[w], s, cells[w]);
    }
  }

  /** The packet passes every slot of the filter; slot k looks at what the k-th valid template asks for. */
  predicate PacketPasses(packet: seq<Word16>, r: Rules, es: seq<Entry>)
    requires |packet| == TEMPLATES * WORDS && r.Sized() && |es| == |Chosen(r.valid, TEMPLATES)|
    requires forall k :: 0 <= k < |es| ==> SlotOk(es[k].slot)
  {
    forall k :: 0 <= k < |es| ==>
      var x := Chosen(r.valid, TEMPLATES)[k]; SlotPasses(es[k].slot, packet[x * WORDS..x * WORDS + WORDS])
  }

  /** Templates that take no part ask for nothing. */
  predicate UnusedBlank(r: Rules)
    requires r.Sized()
  {
    forall c :: 0 <= c < TEMPLATES * WORDS && !r.valid[c / WORDS] ==> r.cells[c] == Cell(0, 0)
  }

  /** The cells of template `t` and what the packet shows it. */
  predicate PartHits(packet: seq<Word16>, r: Rules, t: nat)
    requires |packet| == TEMPLATES * WORDS && r.Sized() && t < TEMPLATES
  {
    TemplateHits(packet[t * WORDS..t * WORDS + WORDS], r.cells[t * WORDS..t * WORDS + WORDS])
  }

  lemma PartIsCells(packet: seq<Word16>, r: Rules, t: nat)
    requires |packet| == TEMPLATES * WORDS && r.Sized() && t < TEMPLATES
    ensures PartHits(packet, r, t) <==> forall w :: 0 <= w < WORDS ==> CellHits(packet, r, t, w)
  {
    var (words, cells) := (packet[t * WORDS..t * WORDS + WORDS], r.cells[t * WORDS..t * WORDS + WORDS]);
    forall w | 0 <= w < WORDS
      ensures Hits(words[w], cells[w]) <==> CellHits(packet, r, t, w)
    {
      assert words[w] == packet[t * WORDS + w] && cells[w] == r.cells[t * WORDS + w];
    }
  }

  predicate CellHits(packet: seq<Word16>, r: Rules, t: nat, w: nat)
    requires |packet| == TEMPLATES * WORDS && r.Sized() && t < TEMPLATES && w < WORDS
  {
    Hits(packet[t * WORDS + w], r.cells[t * WORDS + w])
  }

  lemma UnusedHits(packet: seq<Word16>, r: Rules, t: nat)
    requires |packet| == TEMPLATES * WORDS && r.Sized() && t < TEMPLATES && UnusedBlank(r) && !r.valid[t]
    ensures PartHits(packet, r, t)
  {
    PartIsCells(packet, r, t);
    forall w | 0 <= w < WORDS
      ensures CellHits(packet, r, t, w)
    {
      assert (t * WORDS + w) / WORDS == t;
      CaresForNothing(packet[t * WORDS + w]);
    }
  }

  lemma AllHitIsParts(packet: seq<Word16>, r: Rules)
    requires |packet| == TEMPLATES * WORDS && r.Sized()
    ensures AllHit(packet, r) <==> forall t :: 0 <= t < TEMPLATES ==> PartHits(packet, r, t)
  {
    forall t | 0 <= t < TEMPLATES
      ensures PartHits(packet, r, t) <==> forall w :: 0 <= w < WORDS ==> CellHits(packet, r, t, w)
    {
      PartIsCells(packet, r, t);
    }
    if forall t :: 0 <= t < TEMPLATES ==> PartHits(packet, r, t) {
      forall c | 0 <= c < TEMPLATES * WORDS
        ensures Hits(packet[c], r.cells[c])
      {
        assert PartHits(packet, r, c / WORDS);
        assert CellHits(packet, r, c / WORDS, c % WORDS);
      }
    }
    if AllHit(packet, r) {
      forall t | 0 <= t < TEMPLATES
        ensures PartHits(packet, r, t)
      {
        forall w | 0 <= w < WORDS
          ensures CellHits(packet, r, t, w)
        {
          assert Hits(packet[t * WORDS + w], r.cells[t * WORDS + w]);
        }
      }
    }
  }

  lemma SlotIsPart(packet: seq<Word16>, r: Rules, c: Criteria, e: Env, s: State, k: nat)
    requires |packet| == TEMPLATES * WORDS && r.Sized() && PortsFit(c, e) && k < Count(r.valid)
    ensures |Entries(r, c, e, s, TEMPLATES)| == |Chosen(r.valid, TEMPLATES)| == Count(r.valid)
    ensures var (x, slot) := (Chosen(r.valid, TEMPLATES)[k], Entries(r, c, e, s, TEMPLATES)[k].slot);
      && x < TEMPLATES && SlotOk(slot)
      && (SlotPasses(slot, packet[x * WORDS..x * WORDS + WORDS]) <==> PartHits(packet, r, x))
  {
    assert r.valid[..TEMPLATES] == r.valid;
    EntryAt(r, c, e, s, TEMPLATES, k);
    var x := Chosen(r.valid, TEMPLATES)[k];
    StoredSlotPasses(r, x, c, e, packet[x * WORDS..x * WORDS + WORDS], StoreRule(RuleOf(r, x, c, e)));
  }

  /** A packet passes the slots of a filter exactly if it matches the rules that they were made from. */
  lemma PassesExact(packet: seq<Word16>, r: Rules, c: Criteria, e: Env, s: State, es: seq<Entry>)
    requires |packet| == TEMPLATES * WORDS && r.Sized() && PortsFit(c, e) && UnusedBlank(r)
    requires es == Entries(r, c, e, s, TEMPLATES)
    ensures |es| == |Chosen(r.valid, TEMPLATES)| && forall k :: 0 <= k < |es| ==> SlotOk(es[k].slot)
    ensures PacketPasses(packet, r, es) <==> AllHit(packet, r)
  {
    assert r.valid[..TEMPLATES] == r.valid;
    var chosen := Chosen(r.valid, TEMPLATES);
    forall k | 0 <= k < |es|
      ensures SlotOk(es[k].slot) && chosen[k] < TEMPLATES
      ensures SlotPasses(es[k].slot, packet[chosen[k] * WORDS..chosen[k] * WORDS + WORDS])
              <==> PartHits(packet, r, chosen[k])
    {
      SlotIsPart(packet, r, c, e, s, k);
    }
    AllHitIsParts(packet, r);
    if PacketPasses(packet, r, es) {
      forall t | 0 <= t < TEMPLATES
        ensures PartHits(packet, r, t)
      {
        if r.valid[t] {
          assert t in chosen;
          var k :| 0 <= k < |chosen| && chosen[k] == t;
        } else {
          UnusedHits(packet, r, t);
        }
      }
    }
  }

  lemma {:induction false} CompiledUnusedBlank(r: Rules, fs: seq<Field>)
    requires r.Sized() && AllValid(fs) && UnusedBlank(r)
    ensures UnusedBlank(Compile(r, fs))
    decreases |fs|
  {
    if fs == [] {
      assert Compile(r, fs) == r;
    } else {
      assert forall f :: f in fs[1..] ==> f in fs;
      AppliedUnusedBlank(r, fs[0]);
      CompiledUnusedBlank(Applied(r, fs[0]), fs[1..]);
      assert Compile(r, fs) == Compile(Applied(r, fs[0]), fs[1..]);
    }
  }

  lemma AppliedUnusedBlank(r: Rules, f: Field)
    requires r.Sized() && ValidField(f) && UnusedBlank(r)
    ensures UnusedBlank(Applied(r, f))
  {
    forall c | 0 <= c < TEMPLATES * WORDS && !Applied(r, f).valid[c / WORDS]
      ensures Applied(r, f).cells[c] == Cell(0, 0)
    {
      forall i | 0 <= i < |f.positions|
        ensures Pokes(f)[i].cell != c
      {
        assert f.positions[i] in f.positions;
        assert Marks(f, TemplateOf(f.positions[i]));
        assert PokeAt(f, i).cell / WORDS == TemplateOf(f.positions[i]);
      }
      Untouched(r.cells, Pokes(f), c);
    }
  }

  /**
  The slots that cfg_add fills for a list of fields, without advanced packet types, are passed by
  exactly the packets that agree with every field.
  */
  lemma StoredFilterMeans(packet: seq<Word16>, fs: seq<Field>, c: Criteria, e: Env, s: State, es: seq<Entry>)
    requires AllValid(fs) && |packet| == TEMPLATES * WORDS && PortsFit(c, e) && c.advanced == Cell(0, 0)
    requires forall i :: 0 <= i < |fs| ==> fs[i] in fs && DistinctCells(fs[i])
    requires forall i, j :: 0 <= i < j < |fs| ==> MayMix(fs[i], fs[j])
    requires forall i, k :: 0 <= i < |fs| && 0 <= k < |fs[i].positions| ==> SpillsNowhere(fs[i], k)
    requires es == Entries(RulesFor(fs, c), c, e, s, TEMPLATES)
    ensures |es| == |Chosen(RulesFor(fs, c).valid, TEMPLATES)| && forall k :: 0 <= k < |es| ==> SlotOk(es[k].slot)
    ensures PacketPasses(packet, RulesFor(fs, c), es) <==> forall i :: 0 <= i < |fs| ==> FieldAgrees(fs[i], packet)
  {
    CompiledUnusedBlank(BLANK, fs);
    PassesExact(packet, RulesFor(fs, c), c, e, s, es);
    FilterMeans(fs, packet);
  }
}
