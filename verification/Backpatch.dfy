/** References between the entries of a unit, written before or after the entry they refer to. */
module Backpatch {
  import opened Bytes

  /** What was written, in order: plain bytes, and references to entries by key. */
  datatype Items = Start | Plain(front: Items, bytes: seq<byte>) | Reference(front: Items, key: nat)

  /** The bytes that stand for the entries whose place is known. */
  type Words = map<nat, seq<byte>>

  /** A reference is the word of its entry, or a blank of the same width. */
  function Slot(words: Words, blank: seq<byte>, key: nat): (r: seq<byte>)
    ensures |r| == |blank|
  {
    if key in words && |words[key]| == |blank| then words[key] else blank
  }

  /** The output, behind what came before the unit, of a writer with all these words at hand. */
  function Render(before: seq<byte>, items: Items, words: Words, blank: seq<byte>): seq<byte> {
    match items
    case Start => before
    case Plain(front, bytes) => Render(before, front, words, blank) + bytes
    case Reference(front, key) => Render(before, front, words, blank) + Slot(words, blank, key)
  }

  /** How much was written, and where the references to a key stand. */
  function Length(start: nat, items: Items, w: nat): nat {
    match items
    case Start => start
    case Plain(front, bytes) => Length(start, front, w) + |bytes|
    case Reference(front, _) => Length(start, front, w) + w
  }

  function Places(start: nat, items: Items, w: nat, key: nat): seq<nat> {
    match items
    case Start => []
    case Plain(front, _) => Places(start, front, w, key)
    case Reference(front, k) =>
      Places(start, front, w, key) + (if k == key then [Length(start, front, w)] else [])
  }

  /** The keys referred to so far. */
  function Keys(items: Items): set<nat> {
    match items
    case Start => {}
    case Plain(front, _) => Keys(front)
    case Reference(front, k) => Keys(front) + {k}
  }

  function Rewrite(out: seq<byte>, pos: nat, b: seq<byte>): (r: seq<byte>)
    requires pos + |b| <= |out|
    ensures |r| == |out|
  {
    out[..pos] + b + out[pos + |b|..]
  }

  ghost predicate Within(places: seq<nat>, n: nat, w: nat) {
    forall i :: 0 <= i < |places| ==> places[i] + w <= n
  }

  function RewriteAll(out: seq<byte>, places: seq<nat>, b: seq<byte>): (r: seq<byte>)
    requires Within(places, |out|, |b|)
    ensures |r| == |out|
  {
    if places == [] then out
    else Rewrite(RewriteAll(out, places[..|places| - 1], b), places[|places| - 1], b)
  }

  // ----- patching -----

  lemma {:induction false} RenderLength(before: seq<byte>, items: Items, words: Words, blank: seq<byte>)
    ensures |Render(before, items, words, blank)| == Length(|before|, items, |blank|) >= |before|
  {
    if !items.Start? {
      RenderLength(before, items.front, words, blank);
    }
  }

  lemma {:induction false} PlacesWithin(start: nat, items: Items, w: nat, key: nat)
    ensures Within(Places(start, items, w, key), Length(start, items, w), w)
  {
    if !items.Start? {
      PlacesWithin(start, items.front, w, key);
    }
  }

  lemma {:induction false} PlacesKeys(start: nat, items: Items, w: nat, key: nat)
    ensures Places(start, items, w, key) == [] <==> key !in Keys(items)
  {
    if !items.Start? {
      PlacesKeys(start, items.front, w, key);
    }
  }

  lemma {:induction false} RewriteAllFront(a: seq<byte>, b: seq<byte>, places: seq<nat>, v: seq<byte>)
    requires Within(places, |a|, |v|)
    ensures RewriteAll(a + b, places, v) == RewriteAll(a, places, v) + b
  {
    if places != [] {
      var n := |places| - 1;
      RewriteAllFront(a, b, places[..n], v);
      var x := RewriteAll(a, places[..n], v);
      assert Rewrite(x + b, places[n], v) == Rewrite(x, places[n], v) + b;
    } else {
      assert RewriteAll(a + b, [], v) == a + b;
    }
  }

  lemma RewriteAllLast(out: seq<byte>, places: seq<nat>, p: nat, v: seq<byte>)
    requires Within(places, |out|, |v|) && p + |v| <= |out|
    ensures Within(places + [p], |out|, |v|)
    ensures RewriteAll(out, places + [p], v) == Rewrite(RewriteAll(out, places, v), p, v)
  {
    assert (places + [p])[..|places|] == places;
  }

  lemma RewriteEnd(front: seq<byte>, last: seq<byte>, v: seq<byte>)
    requires |last| == |v|
    ensures Rewrite(front + last, |front|, v) == front + v
  {
  }

  /** Patching the places of a key gives the output of a writer that knew its word. */
  lemma {:induction false} PatchedIsRendered(before: seq<byte>, items: Items, words: Words, blank: seq<byte>,
                                             key: nat, v: seq<byte>)
    requires key !in words && |v| == |blank|
    ensures Within(Places(|before|, items, |blank|, key), |Render(before, items, words, blank)|, |v|)
    ensures RewriteAll(Render(before, items, words, blank), Places(|before|, items, |blank|, key), v)
         == Render(before, items, words[key := v], blank)
  {
    RenderLength(before, items, words, blank);
    PlacesWithin(|before|, items, |blank|, key);
    if !items.Start? {
      PatchedIsRendered(before, items.front, words, blank, key, v);
      var front, places := Render(before, items.front, words, blank), Places(|before|, items.front, |blank|, key);
      if items.Plain? {
        RewriteAllFront(front, items.bytes, places, v);
      } else {
        RenderLength(before, items.front, words, blank);
        PatchReference(front, Render(before, items.front, words[key := v], blank), places, words, blank, items.key,
                       key, v);
      }
    }
  }

  lemma PatchReference(front: seq<byte>, front': seq<byte>, places: seq<nat>, words: Words, blank: seq<byte>, k: nat,
                       key: nat,
                       v: seq<byte>)
    requires key !in words && |v| == |blank| && Within(places, |front|, |v|) && RewriteAll(front, places, v) == front'
    ensures Within(places + (if k == key then [|front|] else []), |front + Slot(words, blank, k)|, |v|)
    ensures RewriteAll(front + Slot(words, blank, k), places + (if k == key then [|front|] else []), v)
         == front' + Slot(words[key := v], blank, k)
  {
    if k == key {
      PatchOwn(front, front', places, blank, v);
    } else {
      RewriteAllFront(front, Slot(words, blank, k), places, v);
      assert places + [] == places;
    }
  }

  lemma PatchOwn(front: seq<byte>, front': seq<byte>, places: seq<nat>, last: seq<byte>, v: seq<byte>)
    requires |v| == |last| && Within(places, |front|, |v|) && RewriteAll(front, places, v) == front'
    ensures Within(places + [|front|], |front + last|, |v|)
    ensures RewriteAll(front + last, places + [|front|], v) == front' + v
  {
    RewriteAllFront(front, last, places, v);
    RewriteAllLast(front + last, places, |front|, v);
    RewriteEnd(front', last, v);
  }

  /** Every reference to an entry with a known place holds its word, wherever it stands. */
  lemma {:induction false} SlotsAreRight(before: seq<byte>, items: Items, words: Words, blank: seq<byte>, key: nat,
                                         p: nat)
    requires p in Places(|before|, items, |blank|, key)
    ensures Stands(Render(before, items, words, blank), p, Slot(words, blank, key))
  {
    var front := Render(before, items.front, words, blank);
    RenderLength(before, items.front, words, blank);
    if items.Plain? {
      SlotsAreRight(before, items.front, words, blank, key, p);
      StandsAppend(front, items.bytes, p, Slot(words, blank, key));
    } else {
      StandsAppend(front, Slot(words, blank, items.key), p, Slot(words, blank, key));
      if p in Places(|before|, items.front, |blank|, key) {
        SlotsAreRight(before, items.front, words, blank, key, p);
      }
    }
  }

  // ----- the writer -----

  /** The unresolved keys are exactly those referred to but not started, with all their places. */
  ghost predicate Pending(start: nat, items: Items, w: nat, known: set<nat>, unknown: map<nat, seq<nat>>) {
    && (forall k :: k in unknown <==> k in Keys(items) && k !in known)
    && (forall k :: k in unknown ==> unknown[k] == Places(start, items, w, k))
  }

  lemma PendingGrows(start: nat, items: Items, w: nat, known: set<nat>, unknown: map<nat, seq<nat>>, key: nat, at: nat)
    requires Pending(start, items, w, known, unknown) && at == Length(start, items, w)
    ensures key in known ==> Pending(start, Reference(items, key), w, known, unknown)
    ensures key !in known ==>
              Pending(start, Reference(items, key), w, known,
                      unknown[key := (if key in unknown then unknown[key] else []) + [at]])
  {
    PlacesKeys(start, items, w, key);
  }

  lemma PendingShrinks(start: nat, items: Items, w: nat, known: set<nat>, unknown: map<nat, seq<nat>>, key: nat)
    requires Pending(start, items, w, known, unknown) && key !in known
    ensures Pending(start, items, w, known + {key}, unknown - {key})
    ensures key in unknown ==> unknown[key] == Places(start, items, w, key)
    ensures key !in unknown ==> Places(start, items, w, key) == [] && unknown - {key} == unknown
  {
    PlacesKeys(start, items, w, key);
  }

  /** The output is what a writer with these words at hand would have produced; the rest is pending. */
  ghost predicate Patched(before: seq<byte>, items: Items, words: Words, blank: seq<byte>, out: seq<byte>,
                          unknown: map<nat, seq<nat>>)
  {
    && out == Render(before, items, words, blank) && (forall k :: k in words ==> |words[k]| == |blank|)
    && Pending(|before|, items, |blank|, words.Keys, unknown)
  }

  lemma AppendKeeps(before: seq<byte>, items: Items, words: Words, blank: seq<byte>, out: seq<byte>,
                    unknown: map<nat, seq<nat>>, key: nat)
    requires Patched(before, items, words, blank, out, unknown)
    ensures key in words ==> Patched(before, Reference(items, key), words, blank, out + words[key], unknown)
    ensures key !in words ==>
              Patched(before, Reference(items, key), words, blank, out + blank,
                      unknown[key := (if key in unknown then unknown[key] else []) + [|out|]])
  {
    RenderLength(before, items, words, blank);
    PendingGrows(|before|, items, |blank|, words.Keys, unknown, key, |out|);
  }

  /** Once its word is known, patching the places of a key leaves nothing of it pending. */
  lemma SetKeeps(before: seq<byte>, items: Items, words: Words, blank: seq<byte>, out: seq<byte>,
                 unknown: map<nat, seq<nat>>, key: nat, word: seq<byte>)
    requires Patched(before, items, words, blank, out, unknown) && key !in words && |word| == |blank|
    ensures key in unknown ==>
              && Within(unknown[key], |out|, |word|)
              && Patched(before, items, words[key := word], blank, RewriteAll(out, unknown[key], word), unknown - {key})
    ensures key !in unknown ==> Patched(before, items, words[key := word], blank, out, unknown)
  {
    PatchedIsRendered(before, items, words, blank, key, word);
    PendingShrinks(|before|, items, |blank|, words.Keys, unknown, key);
    assert words[key := word].Keys == words.Keys + {key};
    assert RewriteAll(out, [], word) == out;
  }

  /** An offset in the unit, in w bytes. */
  function Word(offset: nat, w: nat): (r: seq<byte>)
    ensures |r| == w
  {
    LittleEndian(offset, w)
  }

  lemma WordReads(offset: nat, w: nat)
    requires w == 8 && offset < 0x1_0000_0000_0000_0000
    ensures FromLittleEndian(Word(offset, w)) == offset
  {
    EightBytes();
    LittleEndianRoundTrip(offset, w);
  }

  lemma BlankIsZero(out: seq<byte>, p: nat, w: nat)
    requires Stands(out, p, Word(0, w))
    ensures forall i :: p <= i < p + w ==> out[i] == 0
  {
    LittleEndianZero(w);
    forall i | p <= i < p + w
      ensures out[i] == 0
    {
      assert out[p..p + w][i - p] == Word(0, w)[i - p];
    }
  }

  /** The words of the entries that have started, which are their offsets in the unit. */
  ghost predicate WordsOf(words: Words, known: map<nat, nat>, base: nat, w: nat) {
    words.Keys == known.Keys && forall k :: k in known ==> known[k] >= base && words[k] == Word(known[k] - base, w)
  }

  lemma WordsUpdate(words: Words, known: map<nat, nat>, base: nat, w: nat, key: nat, location: nat)
    requires WordsOf(words, known, base, w) && location >= base
    ensures WordsOf(words[key := Word(location - base, w)], known[key := location], base, w)
  {
  }

  class Relocations {
    const width: nat
    var out: seq<byte>
    var known: map<nat, nat>
    var unknown: map<nat, seq<nat>>
    var unitBase: nat
    ghost var before: seq<byte>
    ghost var items: Items
    ghost var words: Words

    ghost predicate Valid()
      reads this
    {
      && width == 8 && unitBase == |before| && WordsOf(words, known, unitBase, width)
      && Patched(before, items, words, Word(0, width), out, unknown)
    }

    constructor ()
      ensures Valid() && out == [] && items == Start && known == map[]
    {
      width := 8;
      out, known, unknown, unitBase, before, items, words := [], map[], map[], 0, [], Start, map[];
    }

    /** Forgets all keys, resolved or not. */
    method StartUnit()
      requires width == 8
      modifies this
      ensures Valid() && out == old(out) && items == Start && known == map[] && before == old(out)
    {
      known, unknown, unitBase := map[], map[], |out|;
      before, items, words := out, Start, map[];
    }

    /** Bytes that are not references. */
    method Write(bytes: seq<byte>)
      requires Valid()
      modifies this`out, this`items
      ensures Valid() && items == Plain(old(items), bytes)
    {
      out := out + bytes;
      items := Plain(items, bytes);
    }

    /** A reference, resolved now or later. */
    method Append(key: nat)
      requires Valid()
      modifies this`out, this`unknown, this`items
      ensures Valid() && items == Reference(old(items), key)
    {
      AppendKeeps(before, items, words, Word(0, width), out, unknown, key);
      if key in known {
        out := out + Word(known[key] - unitBase, width);
      } else {
        unknown := unknown[key := (if key in unknown then unknown[key] else []) + [|out|]];
        out := out + Word(0, width);
      }
      items := Reference(items, key);
    }

    /** The entry with this key starts here; only its first start counts. */
    method Set(key: nat)
      requires Valid()
      modifies this`out, this`known, this`unknown, this`words
      ensures Valid() && known == if key in old(known) then old(known) else old(known)[key := |old(out)|]
    {
      if key in known {
        return;
      }
      var location := |out|;
      RenderLength(before, items, words, Word(0, width));
      Resolve(key, Word(location - unitBase, width));
      WordsUpdate(words, known, unitBase, width, key, location);
      known, words := known[key := location], words[key := Word(location - unitBase, width)];
    }

    /** Writes the word of a key into all places where it was missing. */
    method Resolve(key: nat, word: seq<byte>)
      requires Patched(before, items, words, Word(0, width), out, unknown) && key !in words && |word| == width
      modifies this`out, this`unknown
      ensures Patched(before, items, words[key := word], Word(0, width), out, unknown)
    {
      SetKeeps(before, items, words, Word(0, width), out, unknown, key, word);
      if key in unknown {
        Patch(unknown[key], word);
        unknown := unknown - {key};
      }
    }

    /** Every reference to an entry that has started holds the entry's offset in the unit, in eight bytes. */
    lemma ResolvedHolds(key: nat, p: nat)
      requires Valid() && key in known && p in Places(unitBase, items, width, key)
      ensures width == 8 && unitBase <= known[key] && Stands(out, p, Word(known[key] - unitBase, width))
      ensures known[key] - unitBase < 0x1_0000_0000_0000_0000 ==>
                FromLittleEndian(out[p..p + width]) == known[key] - unitBase
    {
      SlotsAreRight(before, items, words, Word(0, width), key, p);
      if known[key] - unitBase < 0x1_0000_0000_0000_0000 {
        WordReads(known[key] - unitBase, width);
      }
    }

    /** A reference to an entry that has not started yet is eight zero bytes. */
    lemma PendingHolds(key: nat, p: nat)
      requires Valid() && key !in known && p in Places(unitBase, items, width, key)
      ensures width == 8 && p + width <= |out| && forall i :: p <= i < p + width ==> out[i] == 0
    {
      SlotsAreRight(before, items, words, Word(0, width), key, p);
      BlankIsZero(out, p, width);
    }

    method Patch(places: seq<nat>, b: seq<byte>)
      requires Within(places, |out|, |b|)
      modifies this`out
      ensures out == RewriteAll(old(out), places, b)
    {
      var i := 0;
      while i < |places|
        invariant i <= |places| && Within(places[..i], |old(out)|, |b|) && out == RewriteAll(old(out), places[..i], b)
      {
        assert places[..i + 1][..i] == places[..i];
        out := Rewrite(out, places[i], b);
        i := i + 1;
      }
      assert places[..i] == places;
    }
  }
}
