/** What `Disassembler.analyze` (pycd.py:105-123) does to the shared
    `disassembly` dictionary, stated as functions on values: the text
    listing of a code unit is split into blocks at blank lines; a block that
    opens a nested unit's listing ("Disassembly of ...") loses that header
    line; the block is stored under the number spelled by the digits among
    its first nine characters, replacing any block stored earlier under the
    same number; a block whose first nine characters hold no digit makes
    `int('')` raise `ValueError`, which ends the loop with the blocks before
    it stored. */
module Listing {
  import opened Text
  import opened CodeGraph

  /** `pydis.split("\n\n")`. */
  const BlockSeparator: string := "\n\n"
  /** `line.startswith('Disassembly of')`. */
  const NestedHeader: string := "Disassembly of"
  /** `line[:9]`. */
  const KeyWidth: nat := 9

  /** The listing of one code unit cut into the blocks `analyze` loops over. */
  function Blocks(text: string): seq<string>
  {
    Split(text, BlockSeparator)
  }

  /** The block as `analyze` stores it. */
  function Normalize(block: string): string
  {
    if StartsWith(block, NestedHeader) then DropFirstLine(block) else block
  }

  /** A block that starts with "Disassembly of" loses exactly its first line
      (all of it, when it is the only line); any other block is kept as it is. */
  lemma NormalizeSpec(block: string)
    ensures !StartsWith(block, NestedHeader) ==> Normalize(block) == block
    ensures StartsWith(block, NestedHeader) && (forall i :: 0 <= i < |block| ==> block[i] != '\n')
            ==> Normalize(block) == ""
    ensures forall k :: StartsWith(block, NestedHeader) && 0 <= k < |block| && block[k] == '\n'
                        && (forall i :: 0 <= i < k ==> block[i] != '\n')
                        ==> k >= |NestedHeader| && Normalize(block) == block[k + 1..]
  {
    if StartsWith(block, NestedHeader) {
      DropFirstLineSpec(block);
      HeaderLineFeedFree(block);
    }
  }

  /** The header "Disassembly of" holds no line feed, so a block that starts
      with it has its first line feed, if any, after the header. */
  lemma HeaderLineFeedFree(block: string)
    requires StartsWith(block, NestedHeader)
    ensures forall i :: 0 <= i < |NestedHeader| ==> block[i] != '\n'
  {
    forall i | 0 <= i < |NestedHeader| ensures block[i] != '\n' {
      assert block[i] == NestedHeader[i];
    }
  }

  /** `int(re.sub('[^0-9]+', '', line[:9]).strip())`: `None` stands for the
      `ValueError` raised when nothing is left to parse. */
  function Key(line: string): Option<nat>
  {
    ParseInt(Strip(Digits(Take(line, KeyWidth))))
  }

  /** The key exists exactly when one of the first nine characters is a
      digit, and it is the number spelled by those digits read together,
      every other character discarded. */
  lemma KeySpec(line: string)
    ensures Key(line).Some? <==> exists i :: 0 <= i < |line| && i < KeyWidth && IsDigit(line[i])
    ensures AllDigits(Digits(Take(line, KeyWidth)))
            && (Key(line).Some? ==> Key(line) == Some(DecimalValue(Digits(Take(line, KeyWidth)))))
  {
    var w := Take(line, KeyWidth);
    DigitsSpec(w);
    StripDigits(Digits(w));
    if exists i :: 0 <= i < |line| && i < KeyWidth && IsDigit(line[i]) {
      var i :| 0 <= i < |line| && i < KeyWidth && IsDigit(line[i]);
      assert w[i] == line[i];
    }
  }

  /** A line laid out as `dis` lays out the first line of a source line's
      instructions (the line number, right-aligned, then only spaces and
      markers up to column nine) is filed under that line number. */
  lemma KeyOfNumberedLine(pad: string, n: nat, rest: string)
    requires forall i :: 0 <= i < |pad| ==> !IsDigit(pad[i])
    requires |pad| + |Show(n)| <= KeyWidth
    requires forall i :: 0 <= i < |rest| && |pad| + |Show(n)| + i < KeyWidth ==> !IsDigit(rest[i])
    ensures Key(pad + Show(n) + rest) == Some(n)
  {
    var line := pad + Show(n) + rest;
    var tail := Take(rest, KeyWidth - |pad| - |Show(n)|);
    assert Take(line, KeyWidth) == pad + Show(n) + tail;
    assert Digits(pad) == [] by {
      DigitsSpec(pad);
    }
    assert Digits(Show(n)) == Show(n) by {
      DigitsSpec(Show(n));
    }
    assert Digits(tail) == [] by {
      DigitsSpec(tail);
      forall i | 0 <= i < |tail| ensures !IsDigit(tail[i]) {
        assert tail[i] == rest[i];
      }
    }
    assert Digits(pad + Show(n) + tail) == Show(n) by {
      DigitsAppend(pad + Show(n), tail);
      DigitsAppend(pad, Show(n));
    }
    StripDigits(Show(n));
    ShowRoundTrip(n);
  }

  /** Digits are read together wherever they stand in the first nine
      characters: two digit runs `a` and `b` with only non-digits `p`
      between them are read as the one number `a + b` ("1 2" is filed under
      twelve). */
  lemma KeyJoinsScatteredDigits(a: string, p: string, b: string)
    requires AllDigits(a) && AllDigits(b) && a + b != []
    requires forall i :: 0 <= i < |p| ==> !IsDigit(p[i])
    requires |a + p + b| <= KeyWidth
    ensures AllDigits(a + b)
    ensures Key(a + p + b) == Some(DecimalValue(a + b))
  {
    var line := a + p + b;
    var ab := a + b;
    assert Take(line, KeyWidth) == line;
    assert Digits(a) == a by { DigitsSpec(a); }
    assert Digits(p) == [] by { DigitsSpec(p); }
    assert Digits(b) == b by { DigitsSpec(b); }
    assert Digits(a + p) == a by {
      DigitsAppend(a, p);
      assert a + [] == a;
    }
    assert Digits(line) == ab by {
      DigitsAppend(a + p, b);
    }
    assert AllDigits(ab) by { DigitsSpec(line); }
    assert Strip(ab) == ab by { StripDigits(ab); }
  }

  /** The key under which `analyze` files a raw block. */
  function BlockKey(block: string): Option<nat>
  {
    Key(Normalize(block))
  }

  // ---------------------------------------------------------------------
  // The store loop

  /** The dictionary after the `for line in lines` loop, and whether the
      loop ran to the end (`false`: `int()` raised). */
  datatype Stored = Stored(entries: map<nat, string>, ok: bool)

  /** The store loop of `analyze`, run from dictionary `m` over `blocks`:
      each block is rewritten by `norm`, read for a number by `key`, and
      stored under that number; the first block without a number ends the
      loop. `analyze` runs it with `norm := Normalize` and `key := Key`;
      the lemmas below hold for any choice of the two. */
  function StoreBlocks(m: map<nat, string>, blocks: seq<string>,
                       norm: string -> string, key: string -> Option<nat>): Stored
    decreases |blocks|
  {
    if blocks == [] then Stored(m, true)
    else
      var line := norm(blocks[0]);
      match key(line)
      case None => Stored(m, false)
      case Some(k) => StoreBlocks(m[k := line], blocks[1..], norm, key)
  }

  /** Running the loop over `a + b` is running it over `a`, then, if that
      did not raise, over `b`. */
  lemma {:induction false} StoreBlocksAppend(m: map<nat, string>, a: seq<string>, b: seq<string>,
                                             norm: string -> string, key: string -> Option<nat>)
    ensures StoreBlocks(m, a + b, norm, key)
            == var r := StoreBlocks(m, a, norm, key);
               if r.ok then StoreBlocks(r.entries, b, norm, key) else r
    decreases |a|
  {
    if a == [] {
      assert a + b == b;
    } else {
      assert (a + b)[0] == a[0];
      assert (a + b)[1..] == a[1..] + b;
      var line := norm(a[0]);
      if key(line).Some? {
        StoreBlocksAppend(m[key(line).value := line], a[1..], b, norm, key);
      }
    }
  }

  /** Turn `i` of the loop, once the blocks before it are stored: a block
      with a key extends what is stored; a block without one makes the
      whole loop raise, keeping what is stored. */
  lemma StoreStep(m: map<nat, string>, blocks: seq<string>, i: nat, e: map<nat, string>,
                  norm: string -> string, key: string -> Option<nat>)
    requires i < |blocks|
    requires StoreBlocks(m, blocks[..i], norm, key) == Stored(e, true)
    ensures key(norm(blocks[i])).None? ==> StoreBlocks(m, blocks, norm, key) == Stored(e, false)
    ensures key(norm(blocks[i])).Some? ==>
              StoreBlocks(m, blocks[..i + 1], norm, key)
              == Stored(e[key(norm(blocks[i])).value := norm(blocks[i])], true)
  {
    assert blocks[..i + 1] == blocks[..i] + [blocks[i]];
    assert [blocks[i]][1..] == [];
    StoreBlocksAppend(m, blocks[..i], [blocks[i]], norm, key);
    if key(norm(blocks[i])).None? {
      assert blocks == blocks[..i + 1] + blocks[i + 1..];
      StoreBlocksAppend(m, blocks[..i + 1], blocks[i + 1..], norm, key);
    }
  }

  /** The loop runs to the end exactly when every block has a key. */
  lemma {:induction false} StoreBlocksOk(m: map<nat, string>, blocks: seq<string>,
                                         norm: string -> string, key: string -> Option<nat>)
    ensures StoreBlocks(m, blocks, norm, key).ok
            <==> forall i :: 0 <= i < |blocks| ==> key(norm(blocks[i])).Some?
    decreases |blocks|
  {
    if blocks != [] {
      var line := norm(blocks[0]);
      if key(line).Some? {
        var tail := blocks[1..];
        StoreBlocksOk(m[key(line).value := line], tail, norm, key);
        assert forall i :: 1 <= i < |blocks| ==> blocks[i] == tail[i - 1];
        if !StoreBlocks(m, blocks, norm, key).ok {
          var j :| 0 <= j < |tail| && key(norm(tail[j])).None?;
          assert key(norm(blocks[j + 1])).None?;
        }
      }
    }
  }

  /** Nothing is ever removed, on the happy path or when `int()` raises, and
      a key that no block produces keeps its earlier block: entries left by
      earlier calls and earlier instances survive. */
  lemma {:induction false} StoreBlocksKeeps(m: map<nat, string>, blocks: seq<string>,
                                            norm: string -> string, key: string -> Option<nat>)
    ensures m.Keys <= StoreBlocks(m, blocks, norm, key).entries.Keys
    ensures forall k :: k in m && (forall i :: 0 <= i < |blocks| ==> key(norm(blocks[i])) != Some(k))
                        ==> StoreBlocks(m, blocks, norm, key).entries[k] == m[k]
    decreases |blocks|
  {
    if blocks != [] {
      var line := norm(blocks[0]);
      if key(line).Some? {
        var m' := m[key(line).value := line];
        var tail := blocks[1..];
        StoreBlocksKeeps(m', tail, norm, key);
        forall k | k in m && (forall i :: 0 <= i < |blocks| ==> key(norm(blocks[i])) != Some(k))
          ensures StoreBlocks(m, blocks, norm, key).entries[k] == m[k]
        {
          assert key(norm(blocks[0])) != Some(k);
          forall i | 0 <= i < |tail| ensures key(norm(tail[i])) != Some(k) {
            assert tail[i] == blocks[i + 1];
          }
        }
      }
    }
  }

  /** Last block wins: when the loop runs to the end, a key holds the block
      (as rewritten) of the last block that produced it. */
  lemma {:induction false} StoreBlocksLastWins(m: map<nat, string>, blocks: seq<string>,
                                               norm: string -> string, key: string -> Option<nat>)
    ensures var r := StoreBlocks(m, blocks, norm, key);
      r.ok ==>
      forall i :: 0 <= i < |blocks| && key(norm(blocks[i])).Some?
                  && (forall j :: i < j < |blocks| ==> key(norm(blocks[j])) != key(norm(blocks[i])))
                  ==> key(norm(blocks[i])).value in r.entries
                      && r.entries[key(norm(blocks[i])).value] == norm(blocks[i])
    decreases |blocks|
  {
    if blocks != [] && StoreBlocks(m, blocks, norm, key).ok {
      var k0 := key(norm(blocks[0])).value;
      var m' := m[k0 := norm(blocks[0])];
      var tail := blocks[1..];
      var r := StoreBlocks(m', tail, norm, key);
      assert StoreBlocks(m, blocks, norm, key) == r;
      assert forall j :: 0 <= j < |tail| ==> tail[j] == blocks[j + 1];
      StoreBlocksLastWins(m', tail, norm, key);
      StoreBlocksKeeps(m', tail, norm, key);
      forall i | 0 <= i < |blocks| && key(norm(blocks[i])).Some?
                 && (forall j :: i < j < |blocks| ==> key(norm(blocks[j])) != key(norm(blocks[i])))
        ensures key(norm(blocks[i])).value in r.entries && r.entries[key(norm(blocks[i])).value] == norm(blocks[i])
      {
        if i == 0 {
          assert forall j :: 0 <= j < |tail| ==> key(norm(tail[j])) != Some(k0);
        } else {
          assert blocks[i] == tail[i - 1];
        }
      }
    }
  }

  /** When the loop runs to the end, every key is an earlier one or one that
      some block produced. */
  lemma {:induction false} StoreBlocksOnlyProduced(m: map<nat, string>, blocks: seq<string>,
                                                   norm: string -> string, key: string -> Option<nat>)
    ensures var r := StoreBlocks(m, blocks, norm, key);
      r.ok ==>
      forall k :: k in r.entries ==>
        k in m || exists i :: 0 <= i < |blocks| && key(norm(blocks[i])) == Some(k)
    decreases |blocks|
  {
    if blocks != [] && StoreBlocks(m, blocks, norm, key).ok {
      var line := norm(blocks[0]);
      var k0 := key(line).value;
      var tail := blocks[1..];
      StoreBlocksOnlyProduced(m[k0 := line], tail, norm, key);
      forall k | k in StoreBlocks(m, blocks, norm, key).entries
        ensures k in m || exists i :: 0 <= i < |blocks| && key(norm(blocks[i])) == Some(k)
      {
        if k != k0 && k !in m {
          var i :| 0 <= i < |tail| && key(norm(tail[i])) == Some(k);
          assert tail[i] == blocks[i + 1];
        }
      }
    }
  }

  /** When block `f` is the first block without a key, `int()` raises there:
      the loop does not complete and the dictionary holds exactly what the
      blocks before `f` stored. */
  lemma StoreBlocksFailure(m: map<nat, string>, blocks: seq<string>, f: nat,
                           norm: string -> string, key: string -> Option<nat>)
    requires f < |blocks| && key(norm(blocks[f])).None?
    requires forall i :: 0 <= i < f ==> key(norm(blocks[i])).Some?
    ensures StoreBlocks(m, blocks[..f], norm, key).ok
    ensures StoreBlocks(m, blocks, norm, key) == Stored(StoreBlocks(m, blocks[..f], norm, key).entries, false)
  {
    StoreBlocksOk(m, blocks[..f], norm, key);
    assert blocks == blocks[..f] + blocks[f..];
    StoreBlocksAppend(m, blocks[..f], blocks[f..], norm, key);
    assert blocks[f..][0] == blocks[f];
    assert blocks[f..][1..] == blocks[f + 1..];
  }

  // ---------------------------------------------------------------------
  // One `analyze` call, and a sequence of them

  /** `analyze(co)` from dictionary `m`, the listing `dis` prints for a unit
      given as a parameter: a value that is not a code unit changes nothing. */
  function AnalyzeValue(m: map<nat, string>, dis: CodeUnit -> string, v: Value): Stored
  {
    if v.Code? then StoreBlocks(m, Blocks(dis(v.unit)), Normalize, Key) else Stored(m, true)
  }

  /** A unit whose listing is empty makes `analyze` raise: the one block is
      the empty string and `int('')` fails. */
  lemma EmptyListingRaises(m: map<nat, string>, dis: CodeUnit -> string, u: CodeUnit)
    requires dis(u) == ""
    ensures AnalyzeValue(m, dis, Code(u)) == Stored(m, false)
  {
    assert Blocks("") == [""];
    assert Take("", KeyWidth) == "";
  }

  /** The dictionary after a sequence of `analyze` calls, whether they all
      returned, and the values the calls were made on (the last of them
      raised when not all returned). */
  datatype Progress = Progress(entries: map<nat, string>, ok: bool, trace: seq<Value>)

  /** `analyze` applied to each value of `vs` in turn, stopping at the first
      call that raises. */
  function Run(m: map<nat, string>, dis: CodeUnit -> string, vs: seq<Value>): (r: Progress)
    ensures r.trace <= vs
    ensures r.ok ==> r.trace == vs
    ensures !r.ok ==> |r.trace| >= 1
    decreases |vs|
  {
    if vs == [] then Progress(m, true, [])
    else
      var s := AnalyzeValue(m, dis, vs[0]);
      if !s.ok then Progress(s.entries, false, [vs[0]])
      else
        var t := Run(s.entries, dis, vs[1..]);
        assert vs == [vs[0]] + vs[1..];
        Progress(t.entries, t.ok, [vs[0]] + t.trace)
  }

  /** Running over `a + b` is running over `a`, then, if nothing raised, over `b`. */
  lemma {:induction false} RunAppend(m: map<nat, string>, dis: CodeUnit -> string, a: seq<Value>, b: seq<Value>)
    ensures Run(m, dis, a + b)
            == var r := Run(m, dis, a);
               if r.ok then var t := Run(r.entries, dis, b); Progress(t.entries, t.ok, a + t.trace)
               else r
    decreases |a|
  {
    if a == [] {
      assert a + b == b;
    } else {
      assert (a + b)[0] == a[0];
      assert (a + b)[1..] == a[1..] + b;
      var s := AnalyzeValue(m, dis, a[0]);
      if s.ok {
        RunAppend(s.entries, dis, a[1..], b);
      }
    }
  }

  /** All blocks the listings of the code units in `vs` are cut into, in order. */
  function AllBlocks(dis: CodeUnit -> string, vs: seq<Value>): seq<string>
    decreases |vs|
  {
    if vs == [] then []
    else (if vs[0].Code? then Blocks(dis(vs[0].unit)) else []) + AllBlocks(dis, vs[1..])
  }

  /** A sequence of `analyze` calls acts on the dictionary as one store loop
      over all their blocks: so the block-level facts (last block wins,
      nothing removed, stop at the first block without key) hold for a
      whole traversal, across units. */
  lemma {:induction false} RunIsStoreAll(m: map<nat, string>, dis: CodeUnit -> string, vs: seq<Value>)
    ensures Run(m, dis, vs).ok == StoreBlocks(m, AllBlocks(dis, vs), Normalize, Key).ok
    ensures Run(m, dis, vs).entries == StoreBlocks(m, AllBlocks(dis, vs), Normalize, Key).entries
    decreases |vs|
  {
    if vs != [] {
      var head := if vs[0].Code? then Blocks(dis(vs[0].unit)) else [];
      StoreBlocksAppend(m, head, AllBlocks(dis, vs[1..]), Normalize, Key);
      var s := AnalyzeValue(m, dis, vs[0]);
      assert s == StoreBlocks(m, head, Normalize, Key);
      if s.ok {
        RunIsStoreAll(s.entries, dis, vs[1..]);
      }
    }
  }

  /** Two units whose listings produce the same key do not both survive: the
      unit analyzed second replaces the block of the first one, and the
      dictionary ends with one entry for the two of them. */
  lemma SameKeyOverwrites(m: map<nat, string>, dis: CodeUnit -> string, u: CodeUnit, w: CodeUnit, k: nat)
    requires Blocks(dis(u)) == [dis(u)] && Blocks(dis(w)) == [dis(w)]
    requires BlockKey(dis(u)) == Some(k) && BlockKey(dis(w)) == Some(k)
    ensures var r := Run(m, dis, [Code(u), Code(w)]);
            r.ok && r.entries == m[k := Normalize(dis(w))]
  {
    var vs := [Code(u), Code(w)];
    assert vs[1..] == [Code(w)];
    assert [Code(w)][1..] == [];
    var m1 := m[k := Normalize(dis(u))];
    assert StoreBlocks(m, [dis(u)], Normalize, Key) == StoreBlocks(m1, [], Normalize, Key) by {
      assert [dis(u)][1..] == [];
    }
    assert StoreBlocks(m1, [dis(w)], Normalize, Key) == StoreBlocks(m1[k := Normalize(dis(w))], [], Normalize, Key) by {
      assert [dis(w)][1..] == [];
    }
    assert m1[k := Normalize(dis(w))] == m[k := Normalize(dis(w))];
    assert Run(m1, dis, [Code(w)]).entries == m[k := Normalize(dis(w))];
  }
}
