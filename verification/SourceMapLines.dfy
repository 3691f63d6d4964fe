// Decompressing a source map and filing instructions under source lines
// (slither/analyses/evm/convert.py, generate_source_to_evm_ins_mapping).
//
// An entry is given as its fields, already split at the colons.
module SourceMapLines {
  import opened Options
  import opened Selections

  datatype Field = Empty | Number(n: int) | Word(w: char)

  type Entry = seq<Field>
  type Pc = int

  // ---------------------------------------------------------------------
  // The compression rules of the Solidity documentation section "Source
  // Mappings": an empty or missing field repeats the preceding element.
  // ---------------------------------------------------------------------

  ghost predicate Compressed(prev: Entry, full: Entry, entry: Entry) {
    && |full| == (if |entry| < |prev| then |prev| else |entry|)
    && forall i :: 0 <= i < |full| ==> full[i] == Repeated(prev, entry, i) && (Omitted(entry, i) ==> i < |prev|)
  }

  ghost predicate Omitted(entry: Entry, i: nat) { i >= |entry| || entry[i].Empty? }

  ghost function Repeated(prev: Entry, entry: Entry, i: nat): Field {
    if !Omitted(entry, i) then entry[i] else if i < |prev| then prev[i] else Empty
  }

  // mapping_item += prev_mapping[len(mapping_item):], then the empty fields
  // are filled in; None for an IndexError.
  method ExpandEntry(prev: Entry, entry: Entry) returns (full: Option<Entry>)
    ensures full.Some? ==> Compressed(prev, full.value, entry)
    ensures full.None? ==> !exists f :: Compressed(prev, f, entry)
  {
    var item := entry + if |entry| <= |prev| then prev[|entry|..] else [];
    ghost var padded := item;
    for i := 0 to |item|
      invariant |item| == |padded|
      invariant forall j :: 0 <= j < i ==> item[j] == Repeated(prev, entry, j) && (Omitted(entry, j) ==> j < |prev|)
      invariant forall j :: i <= j < |item| ==> item[j] == padded[j]
    {
      if item[i].Empty? {
        if i >= |prev| {
          assert Omitted(entry, i);
          return None;
        }
        item := item[i := prev[i]];
      }
    }
    return Some(item);
  }

  // Decompression has one answer.
  lemma CompressedDeterminesFull(prev: Entry, full: Entry, full': Entry, entry: Entry)
    requires Compressed(prev, full, entry) && Compressed(prev, full', entry)
    ensures full == full'
  {
  }

  ghost function Before(fulls: seq<Entry>, i: nat): Entry
    requires i <= |fulls|
  {
    if i == 0 then [] else fulls[i - 1]
  }

  // fulls are the elements that the whole map stands for, each compressed
  // against its predecessor, whether or not that one is skipped later.
  ghost predicate Decompresses(entries: seq<Entry>, fulls: seq<Entry>, n: nat)
    requires n <= |entries| && n <= |fulls|
  {
    forall i :: 0 <= i < n ==> DecompressedAt(entries, fulls, i)
  }

  ghost predicate DecompressedAt(entries: seq<Entry>, fulls: seq<Entry>, i: nat)
    requires i < |entries| && i < |fulls|
  {
    Compressed(Before(fulls, i), fulls[i], entries[i])
  }

  lemma {:induction false} DecompressionIsUnique(entries: seq<Entry>, fulls: seq<Entry>, fulls': seq<Entry>, n: nat)
    requires n <= |entries| && n <= |fulls| && n <= |fulls'|
    requires Decompresses(entries, fulls, n) && Decompresses(entries, fulls', n)
    ensures forall i :: 0 <= i < n ==> fulls[i] == fulls'[i]
  {
    if n > 0 {
      DecompressionIsUnique(entries, fulls, fulls', n - 1);
      assert Before(fulls, n - 1) == Before(fulls', n - 1);
      assert DecompressedAt(entries, fulls, n - 1) && DecompressedAt(entries, fulls', n - 1);
      CompressedDeterminesFull(Before(fulls, n - 1), fulls[n - 1], fulls'[n - 1], entries[n - 1]);
    }
  }

  predicate Repeats(prev: Entry, full: Entry, i: nat)
    requires i < |full|
  {
    i < |prev| && prev[i] == full[i]
  }

  // How many fields remain when all repetitions at the end are left out.
  function Kept(prev: Entry, full: Entry, n: nat): (k: nat)
    requires n <= |full|
    ensures k <= n && forall i :: k <= i < n ==> Repeats(prev, full, i)
    ensures k > 0 ==> !Repeats(prev, full, k - 1)
  {
    if n > 0 && Repeats(prev, full, n - 1) then Kept(prev, full, n - 1) else n
  }

  // The encoder that leaves out everything the rules allow.
  function Compress(prev: Entry, full: Entry): Entry {
    seq(Kept(prev, full, |full|), i requires 0 <= i < |full| => if Repeats(prev, full, i) then Empty else full[i])
  }

  // What it produces stands for the element it was given.
  lemma CompressRoundTrip(prev: Entry, full: Entry)
    requires |prev| <= |full| && forall i :: 0 <= i < |full| ==> !full[i].Empty?
    ensures Compressed(prev, full, Compress(prev, full))
  {
    var entry := Compress(prev, full);
    if |prev| < |full| { assert !Repeats(prev, full, |full| - 1); }
    forall i | 0 <= i < |full|
      ensures full[i] == Repeated(prev, entry, i) && (Omitted(entry, i) ==> i < |prev|)
    {
      if i < |entry| {
        assert entry[i] == if Repeats(prev, full, i) then Empty else full[i];
      } else {
        assert Repeats(prev, full, i);
      }
    }
  }

  // ---------------------------------------------------------------------
  // The line table
  // ---------------------------------------------------------------------

  // file_source[0:k], where a negative k counts from the end.
  function Slice(s: string, k: int): string {
    if k < 0 then (if |s| + k > 0 then s[..|s| + k] else []) else if k < |s| then s[..k] else s
  }

  function Newlines(s: string): nat {
    if s == [] then 0 else Newlines(s[..|s| - 1]) + if s[|s| - 1] == '\n' then 1 else 0
  }

  function LineOf(source: string, offset: int): nat { Newlines(Slice(source, offset)) + 1 }

  // The positions before the offset that hold a newline; a negative offset
  // counts from the end of the text.
  ghost function NewlinesBefore(source: string, offset: int): set<nat> {
    set i: nat | i < |source| && i < (if offset < 0 then |source| + offset else offset) && source[i] == '\n'
  }

  lemma LineCountsNewlines(source: string, offset: int)
    ensures LineOf(source, offset) == 1 + |NewlinesBefore(source, offset)|
  {
    var s := Slice(source, offset);
    CountNewlines(s);
    assert NewlinesIn(s) == NewlinesBefore(source, offset);
  }

  ghost function NewlinesIn(s: string): set<nat> {
    set i: nat | i < |s| && s[i] == '\n'
  }

  lemma {:induction false} CountNewlines(s: string)
    ensures Newlines(s) == |NewlinesIn(s)|
  {
    if |s| > 0 {
      var n := |s| - 1;
      CountNewlines(s[..n]);
      assert NewlinesIn(s) == if s[n] == '\n' then NewlinesIn(s[..n]) + {n} else NewlinesIn(s[..n]);
    }
  }

  // File "-1" marks code that the compiler generated.
  predicate Skipped(full: Entry) { |full| >= 3 && full[2] == Number(-1) }

  // What the unpacking, int() and the instruction lookup need.
  predicate Usable(full: Entry, i: nat, pcs: seq<Pc>) {
    |full| >= 3 && (!Skipped(full) ==> full[0].Number? && i < |pcs|)
  }

  ghost predicate FiledUnder(source: string, full: Entry, line: nat) {
    |full| >= 3 && !Skipped(full) && full[0].Number? && line == 1 + |NewlinesBefore(source, full[0].n)|
  }

  // The instructions of one line, in instruction order.
  ghost function PcsOf(source: string, fulls: seq<Entry>, pcs: seq<Pc>, line: nat, n: nat): seq<Pc>
    requires n <= |fulls|
  {
    if n == 0 then []
    else
      PcsOf(source, fulls, pcs, line, n - 1) +
      if FiledUnder(source, fulls[n - 1], line) && n - 1 < |pcs| then [pcs[n - 1]] else []
  }

  function Get(table: map<nat, seq<Pc>>, line: nat): seq<Pc> {
    if line in table then table[line] else []
  }

  // The table files exactly the instructions of every line, in their order.
  ghost predicate Files(source: string, fulls: seq<Entry>, pcs: seq<Pc>, table: map<nat, seq<Pc>>) {
    && (forall line :: line in table ==>
          table[line] == PcsOf(source, fulls, pcs, line, |fulls|) && table[line] != [])
    && (forall line :: line !in table ==> PcsOf(source, fulls, pcs, line, |fulls|) == [])
  }

  lemma FilesByLookup(source: string, fulls: seq<Entry>, pcs: seq<Pc>, table: map<nat, seq<Pc>>)
    requires forall line :: Get(table, line) == PcsOf(source, fulls, pcs, line, |fulls|)
    requires forall line :: line in table ==> table[line] != []
    ensures Files(source, fulls, pcs, table)
  {
    hide PcsOf;
    forall line: nat
      ensures if line in table then table[line] == PcsOf(source, fulls, pcs, line, |fulls|)
              else PcsOf(source, fulls, pcs, line, |fulls|) == []
    {
      assert Get(table, line) == PcsOf(source, fulls, pcs, line, |fulls|);
    }
  }

  ghost function Take(pcs: seq<Pc>, n: nat): seq<Pc> { if n <= |pcs| then pcs[..n] else pcs }

  ghost function FiledAt(source: string, fulls: seq<Entry>, line: nat): nat -> bool {
    (i: nat) => i < |fulls| && FiledUnder(source, fulls[i], line)
  }

  // The list of a line holds the instructions filed under it, each once and in
  // instruction order.
  lemma {:induction false} PcsAreSelected(source: string, fulls: seq<Entry>, pcs: seq<Pc>, line: nat, n: nat)
    requires n <= |fulls|
    ensures IsSelection(PcsOf(source, fulls, pcs, line, n), Take(pcs, n), FiledAt(source, fulls, line))
  {
    hide IsSelection;
    hide FiledUnder;
    var keep := FiledAt(source, fulls, line);
    if n == 0 {
      assert Take(pcs, 0) == [];
      SelectNothing<Pc>(keep);
    } else {
      PcsAreSelected(source, fulls, pcs, line, n - 1);
      var r := PcsOf(source, fulls, pcs, line, n - 1);
      assert r + [] == r;
      if n <= |pcs| {
        SelectLast(r, pcs[..n - 1], pcs[n - 1], keep);
        assert |pcs[..n - 1]| == n - 1 && pcs[..n - 1] + [pcs[n - 1]] == pcs[..n] == Take(pcs, n);
        assert PcsOf(source, fulls, pcs, line, n) == if keep(n - 1) then r + [pcs[n - 1]] else r;
      } else {
        assert Take(pcs, n) == Take(pcs, n - 1);
        assert PcsOf(source, fulls, pcs, line, n) == PcsOf(source, fulls, pcs, line, n - 1) + [];
      }
    }
  }

  // `fulls` are the first elements of the map, and all of them can be used.
  ghost predicate Readable(entries: seq<Entry>, pcs: seq<Pc>, fulls: seq<Entry>) {
    && |fulls| <= |entries| && Decompresses(entries, fulls, |fulls|)
    && forall i :: 0 <= i < |fulls| ==> Usable(fulls[i], i, pcs)
  }

  // The element after the first ones cannot be expanded or cannot be used.
  ghost predicate BreaksAfter(entries: seq<Entry>, pcs: seq<Pc>, fulls: seq<Entry>) {
    && |fulls| < |entries|
    && forall f :: Compressed(Before(fulls, |fulls|), f, entries[|fulls|]) ==> !Usable(f, |fulls|, pcs)
  }

  // None where the source raises an exception.
  method GenerateMapping(entries: seq<Entry>, pcs: seq<Pc>, source: string) returns (table: Option<map<nat, seq<Pc>>>)
    ensures table.Some? ==>
              exists fulls :: Readable(entries, pcs, fulls) && |fulls| == |entries| && Files(source, fulls, pcs, table.value)
    ensures table.None? ==> exists fulls :: Readable(entries, pcs, fulls) && BreaksAfter(entries, pcs, fulls)
  {
    hide Compressed;
    hide Decompresses;
    hide LineOf;
    hide PcsOf;
    hide FiledUnder;
    hide Get;
    hide Files;
    MappingStarts(entries, source, pcs);
    ghost var fulls: seq<Entry> := [];
    var mapping: map<nat, seq<Pc>> := map[];
    var prev: Entry := [];
    for i := 0 to |entries|
      invariant |fulls| == i && prev == Before(fulls, i)
      invariant Decompresses(entries, fulls, i)
      invariant forall j :: 0 <= j < i ==> Usable(fulls[j], j, pcs)
      invariant forall line :: Get(mapping, line) == PcsOf(source, fulls, pcs, line, i)
      invariant forall line :: line in mapping ==> mapping[line] != []
    {
      var expanded := ExpandEntry(prev, entries[i]);
      if expanded.None? {
        assert Readable(entries, pcs, fulls) && BreaksAfter(entries, pcs, fulls);
        return None;
      }
      var full := expanded.value;
      OneExpansion(prev, full, entries[i]);
      if |full| < 3 || (full[2] != Number(-1) && (!full[0].Number? || i >= |pcs|)) {
        assert Readable(entries, pcs, fulls) && BreaksAfter(entries, pcs, fulls);
        return None;
      }
      ghost var longer := fulls + [full];
      DecompressesExtend(entries, fulls, full, i);
      ghost var before := mapping;
      if full[2] != Number(-1) {
        var line := LineOf(source, full[0].n);
        mapping := mapping[line := Get(mapping, line) + [pcs[i]]];
      }
      MappingExtends(source, before, mapping, fulls, full, pcs, i);
      prev := full;
      fulls := longer;
    }
    FilesByLookup(source, fulls, pcs, mapping);
    assert Readable(entries, pcs, fulls) && Files(source, fulls, pcs, mapping);
    table := Some(mapping);
  }

  // A map that can be read to its end does not break anywhere.
  lemma ReadableMapsDoNotBreak(entries: seq<Entry>, pcs: seq<Pc>, fulls: seq<Entry>, some: seq<Entry>)
    requires Readable(entries, pcs, fulls) && |fulls| == |entries| && Readable(entries, pcs, some)
    ensures !BreaksAfter(entries, pcs, some)
  {
    var n := |some|;
    DecompressionIsUnique(entries, fulls, some, n);
    if n < |entries| {
      assert Before(fulls, n) == Before(some, n);
      assert DecompressedAt(entries, fulls, n);
      assert Compressed(Before(some, n), fulls[n], entries[n]);
    }
  }

  lemma MappingStarts(entries: seq<Entry>, source: string, pcs: seq<Pc>)
    ensures Decompresses(entries, [], 0)
    ensures forall line :: Get(map[], line) == PcsOf(source, [], pcs, line, 0)
  {
  }

  lemma MappingExtends(source: string, before: map<nat, seq<Pc>>, after: map<nat, seq<Pc>>, fulls: seq<Entry>,
                       full: Entry, pcs: seq<Pc>, n: nat)
    requires |fulls| == n && Usable(full, n, pcs)
    requires forall line :: Get(before, line) == PcsOf(source, fulls, pcs, line, n)
    requires if Skipped(full) then after == before
             else var line := LineOf(source, full[0].n); after == before[line := Get(before, line) + [pcs[n]]]
    ensures forall line :: Get(after, line) == PcsOf(source, fulls + [full], pcs, line, n + 1)
  {
    hide PcsOf;
    hide LineOf;
    PcsExtend(source, fulls, full, pcs, n);
    if full[0].Number? { LineCountsNewlines(source, full[0].n); }
    forall line: nat
      ensures Get(after, line) == PcsOf(source, fulls + [full], pcs, line, n + 1)
    {
      assert Get(before, line) == PcsOf(source, fulls, pcs, line, n);
    }
  }

  lemma OneExpansion(prev: Entry, full: Entry, entry: Entry)
    requires Compressed(prev, full, entry)
    ensures forall f :: Compressed(prev, f, entry) ==> f == full
  {
  }

  lemma DecompressesExtend(entries: seq<Entry>, fulls: seq<Entry>, full: Entry, n: nat)
    requires |fulls| == n < |entries| && Decompresses(entries, fulls, n)
    requires Compressed(Before(fulls, n), full, entries[n])
    ensures Decompresses(entries, fulls + [full], n + 1)
  {
    hide DecompressedAt;
    forall i | 0 <= i < n + 1
      ensures DecompressedAt(entries, fulls + [full], i)
    {
      DecompressedExtends(entries, fulls, full, i);
    }
  }

  lemma DecompressedExtends(entries: seq<Entry>, fulls: seq<Entry>, full: Entry, i: nat)
    requires i <= |fulls| < |entries|
    requires if i < |fulls| then DecompressedAt(entries, fulls, i) else Compressed(Before(fulls, i), full, entries[i])
    ensures DecompressedAt(entries, fulls + [full], i)
  {
    hide Compressed;
    assert Before(fulls + [full], i) == Before(fulls, i);
  }

  lemma PcsExtend(source: string, fulls: seq<Entry>, full: Entry, pcs: seq<Pc>, n: nat)
    requires |fulls| == n
    ensures forall line :: PcsOf(source, fulls + [full], pcs, line, n + 1) ==
              PcsOf(source, fulls, pcs, line, n) + if FiledUnder(source, full, line) && n < |pcs| then [pcs[n]] else []
  {
    forall line
      ensures PcsOf(source, fulls + [full], pcs, line, n) == PcsOf(source, fulls, pcs, line, n)
    {
      PcsPrefix(source, fulls, [full], pcs, line, n);
    }
  }

  lemma {:induction false} PcsPrefix(source: string, p: seq<Entry>, q: seq<Entry>, pcs: seq<Pc>, line: nat, n: nat)
    requires n <= |p|
    ensures PcsOf(source, p + q, pcs, line, n) == PcsOf(source, p, pcs, line, n)
  {
    if n > 0 {
      PcsPrefix(source, p, q, pcs, line, n - 1);
      assert (p + q)[n - 1] == p[n - 1];
    }
  }

  // The instruction pc is one of the first n and is filed under the line.
  ghost predicate IsFiled(source: string, fulls: seq<Entry>, pcs: seq<Pc>, line: nat, n: nat, pc: Pc)
    requires n <= |fulls| && n <= |pcs|
  {
    exists i :: 0 <= i < n && pcs[i] == pc && FiledUnder(source, fulls[i], line)
  }

  lemma IsFiledNext(source: string, fulls: seq<Entry>, pcs: seq<Pc>, line: nat, n: nat, pc: Pc)
    requires 0 < n <= |fulls| && n <= |pcs| && forall i, j :: 0 <= i < j < |pcs| ==> pcs[i] != pcs[j]
    ensures var earlier := IsFiled(source, fulls, pcs, line, n - 1, pc);
            var here := pcs[n - 1] == pc && FiledUnder(source, fulls[n - 1], line);
            !(earlier && here) && (IsFiled(source, fulls, pcs, line, n, pc) <==> earlier || here)
  {
    hide FiledUnder;
  }

  // Every instruction that is not skipped is filed under one line, exactly once.
  lemma {:induction false} FiledOnce(source: string, fulls: seq<Entry>, pcs: seq<Pc>, line: nat, n: nat, pc: Pc)
    requires n <= |fulls| && n <= |pcs| && forall i, j :: 0 <= i < j < |pcs| ==> pcs[i] != pcs[j]
    ensures multiset(PcsOf(source, fulls, pcs, line, n))[pc] ==
            if IsFiled(source, fulls, pcs, line, n, pc) then 1 else 0
  {
    hide FiledUnder;
    hide IsFiled;
    if n > 0 {
      FiledOnce(source, fulls, pcs, line, n - 1, pc);
      IsFiledNext(source, fulls, pcs, line, n, pc);
      CountAppended(PcsOf(source, fulls, pcs, line, n - 1), FiledUnder(source, fulls[n - 1], line), pcs[n - 1], pc);
    } else {
      NothingFiled(source, fulls, pcs, line, pc);
    }
  }

  lemma CountAppended(s: seq<Pc>, here: bool, x: Pc, pc: Pc)
    ensures multiset(s + if here then [x] else [])[pc] == multiset(s)[pc] + if here && x == pc then 1 else 0
  {
  }

  lemma NothingFiled(source: string, fulls: seq<Entry>, pcs: seq<Pc>, line: nat, pc: Pc)
    ensures !IsFiled(source, fulls, pcs, line, 0, pc)
  {
  }
}
