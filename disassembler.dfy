/** The `Disassembler` class of pycd.py. An instance reads a compiled
    module, deserializes the code object after the 16-byte header, keeps
    the metadata of the first 12 bytes and walks the code object, adding
    the text listing of every code unit it reaches to the dictionary that
    the class attribute `disassembly` holds (pycd.py:35). That dictionary
    belongs to the class, not to the instance: every instance adds to the
    same one, and nothing ever empties it. */
module Pycd {
  import opened Text
  import opened CodeGraph
  import opened Header
  import opened Listing

  /** The dictionary object bound to `Disassembler.disassembly`, created once
      with the class and then only mutated, never rebound. */
  class SharedListing {
    var entries: map<nat, string>

    /** The class attribute's initial value `{ }`. */
    constructor ()
      ensures entries == map[]
    {
      entries := map[];
    }
  }

  class Disassembler {
    const filename: string
    /** `self.bytes`: the whole file, as `read` returns it. */
    const bytes: seq<byte>
    /** Whether `read` printed "Warning: Magic Number does not match!". */
    const magicMismatch: bool
    /** `self.code_object`: what the deserializer returned for `bytes[16:]`. */
    const codeObject: Value
    /** `self.metadata`, as far as the header goes. */
    const metadata: Metadata
    /** The class attribute `disassembly`: the same object for all instances. */
    const disassembly: SharedListing
    /** What `dis.dis` prints for a code unit (captured by `capture_std`). */
    const dis: CodeUnit -> string
    /** Every value this instance has handed to `analyze`, in call order. */
    ghost var analyzed: seq<Value>

    /** The part of `__init__` before `decompose` (pycd.py:45-49): `read`
        with the file's contents given, `load` with the deserializer given,
        and `meta_analysis` on `bytes[:12]`. A magic-number mismatch does not
        stop it; an empty payload (`marshal.loads` raises `EOFError`) or a
        root that is not a code object (`meta_analysis` raises
        `AttributeError`) does, so those files never reach an instance. */
    constructor Open(filename: string, file: seq<byte>, magic: seq<byte>,
                     loads: seq<byte> -> Value, dis: CodeUnit -> string, shared: SharedListing)
      requires |file| > PayloadStart
      requires loads(Payload(file)).Code?
      ensures this.filename == filename && this.dis == dis && disassembly == shared
      ensures bytes == file
      ensures magicMismatch <==> !(magic <= file)
      ensures codeObject == loads(Payload(file))
      ensures metadata.timestampField == Slice(file, TimestampStart, TimestampEnd)
      ensures analyzed == []
    {
      this.filename := filename;
      var r := Read(file, magic);
      bytes := r.bytes;
      magicMismatch := r.magicMismatch;
      codeObject := Load(r.bytes, loads);
      metadata := MetaAnalysis(MetaHeader(r.bytes));
      disassembly := shared;
      this.dis := dis;
      analyzed := [];
      new;
      TimestampSpec(file);
    }

    /** `analyze(co)` (pycd.py:105-123). `ok` is false when `int()` raised
        `ValueError`; the blocks stored before that stay stored. A value that
        is not a code unit leaves the dictionary as it was. */
    method Analyze(co: Value) returns (ok: bool)
      modifies disassembly, this`analyzed
      ensures analyzed == old(analyzed) + [co]
      ensures Stored(disassembly.entries, ok) == AnalyzeValue(old(disassembly.entries), dis, co)
      ensures !co.Code? ==> ok && disassembly.entries == old(disassembly.entries)
    {
      analyzed := analyzed + [co];
      ok := true;
      if co.Code? {
        var pydis := dis(co.unit);
        var lines := Blocks(pydis);
        ghost var m0 := disassembly.entries;
        for i := 0 to |lines|
          invariant StoreBlocks(m0, lines[..i], Normalize, Key) == Stored(disassembly.entries, true)
          invariant analyzed == old(analyzed) + [co]
        {
          var line := lines[i];
          if StartsWith(line, NestedHeader) {
            line := DropFirstLine(line);
          }
          var lineNumber := Key(line);
          StoreStep(m0, lines, i, disassembly.entries, Normalize, Key);
          if lineNumber.None? {
            ok := false;
            return;
          }
          disassembly.entries := disassembly.entries[lineNumber.value := line];
        }
        assert lines[..|lines|] == lines;
      }
    }

    /** `walk(co)` (pycd.py:93-102): `analyze` on `co`, then on the subtree of
        every code-typed constant, in constant-pool order; the first
        `ValueError` ends the whole walk. The values analyzed are a prefix
        of `PreOrder(co)` (all of it when `ok`), and the dictionary is what
        those calls leave. */
    method Walk(co: Value) returns (ok: bool)
      modifies disassembly, this`analyzed
      ensures var r := Run(old(disassembly.entries), dis, PreOrder(co));
              disassembly.entries == r.entries && ok == r.ok
              && analyzed == old(analyzed) + r.trace
      decreases Size(co)
    {
      ghost var m0 := disassembly.entries;
      ghost var a0 := analyzed;
      ok := Analyze(co);
      assert Run(m0, dis, [co]) == Progress(disassembly.entries, ok, [co]) by {
        RunFirst(m0, dis, co);
      }
      if !ok {
        assert Run(m0, dis, PreOrder(co)) == Progress(disassembly.entries, false, [co]) by {
          RunFirst(m0, dis, co);
        }
        return;
      }
      if co.Code? {
        var consts := co.unit.consts;
        ghost var done := [co];
        assert consts[..0] == [];
        for i := 0 to |consts|
          invariant ok
          invariant done == [co] + ConstsOrder(consts[..i])
          invariant Run(m0, dis, done) == Progress(disassembly.entries, true, done)
          invariant analyzed == a0 + done
        {
          if consts[i].Code? {
            assert Size(consts[i]) < Size(co) by {
              ConstSmaller(co.unit, i);
            }
            ghost var e := disassembly.entries;
            ghost var piece := PreOrder(consts[i]);
            ok := Walk(consts[i]);
            ghost var t := Run(e, dis, piece);
            AppendAssoc(a0, done, t.trace);
            if !ok {
              assert Run(m0, dis, PreOrder(co)) == Progress(t.entries, false, done + t.trace) by {
                PreOrderAround(co.unit, i);
                RunStopsIn(m0, dis, done, piece, ConstsOrder(consts[i + 1..]));
              }
              return;
            }
            assert Run(m0, dis, done + piece) == Progress(t.entries, true, done + piece) by {
              RunAppend(m0, dis, done, piece);
            }
            done := done + piece;
          }
          assert done == [co] + ConstsOrder(consts[..i + 1]) by {
            ConstsOrderSnoc(co.unit, i);
          }
        }
        assert consts[..|consts|] == consts;
      }
    }

    /** `decompose()` (pycd.py:88-90): walk the deserialized code object. */
    method Decompose() returns (ok: bool)
      modifies disassembly, this`analyzed
      ensures var r := Run(old(disassembly.entries), dis, PreOrder(codeObject));
              disassembly.entries == r.entries && ok == r.ok
              && analyzed == old(analyzed) + r.trace
    {
      ok := Walk(codeObject);
    }
  }

  /** What `Walk` hands to `analyze`, read off its trace: the root first;
      then a prefix of the pre-order traversal; when nothing raised, one
      call per code-unit occurrence of the tree (a root that is not a code
      unit still gets its one call), never more. */
  lemma WalkTrace(m: map<nat, string>, dis: CodeUnit -> string, co: Value)
    ensures var r := Run(m, dis, PreOrder(co));
            |r.trace| >= 1 && r.trace[0] == co && r.trace <= PreOrder(co)
            && |r.trace| <= (if co.Code? then CodeCount(co) else 1)
            && (r.ok ==> |r.trace| == if co.Code? then CodeCount(co) else 1)
  {
    PreOrderLength(co);
  }

  /** After `walk` has analyzed its root: the first step of `Run` over the
      traversal, and the whole of it when that call raised. */
  lemma RunFirst(m: map<nat, string>, dis: CodeUnit -> string, co: Value)
    ensures Run(m, dis, [co]) == var s := AnalyzeValue(m, dis, co); Progress(s.entries, s.ok, [co])
    ensures !AnalyzeValue(m, dis, co).ok ==> Run(m, dis, PreOrder(co)) == Run(m, dis, [co])
  {
    assert [co][1..] == [];
    RunAppend(m, dis, [co], PreOrder(co)[1..]);
    assert PreOrder(co) == [co] + PreOrder(co)[1..];
  }

  /** Concatenation regrouped. Stated once as a lemma so that the proof of
      `Walk` does not search for it among its many sequence terms. */
  lemma AppendAssoc<T>(a: seq<T>, b: seq<T>, c: seq<T>)
    ensures a + b + c == a + (b + c)
  {
  }

  /** The traversal prefix before constant `i`, extended by that constant's
      subtree (nothing for a constant that is not a code unit). */
  lemma ConstsOrderSnoc(u: CodeUnit, i: nat)
    requires i < |u.consts|
    ensures [Code(u)] + ConstsOrder(u.consts[..i + 1])
            == [Code(u)] + ConstsOrder(u.consts[..i]) + (if u.consts[i].Code? then PreOrder(u.consts[i]) else [])
  {
    var cs := u.consts;
    assert cs[..i + 1] == cs[..i] + [cs[i]];
    ConstsOrderAppend(cs[..i], [cs[i]]);
    assert [cs[i]][1..] == [];
  }

  /** The traversal of a unit around its constant `i`: what comes before
      that constant's subtree, the subtree, and what comes after. */
  lemma PreOrderAround(u: CodeUnit, i: nat)
    requires i < |u.consts| && u.consts[i].Code?
    ensures PreOrder(Code(u))
            == [Code(u)] + ConstsOrder(u.consts[..i]) + PreOrder(u.consts[i]) + ConstsOrder(u.consts[i + 1..])
  {
    var cs := u.consts;
    ConstsOrderSnoc(u, i);
    assert cs == cs[..i + 1] + cs[i + 1..];
    ConstsOrderAppend(cs[..i + 1], cs[i + 1..]);
  }

  /** When the calls over `b` raise after those over `a` returned, the calls
      over `a + b + c` raise at the same point and `c` is never reached. */
  lemma RunStopsIn(m: map<nat, string>, dis: CodeUnit -> string, a: seq<Value>, b: seq<Value>, c: seq<Value>)
    requires Run(m, dis, a).ok
    requires !Run(Run(m, dis, a).entries, dis, b).ok
    ensures var t := Run(Run(m, dis, a).entries, dis, b);
            Run(m, dis, a + b + c) == Progress(t.entries, false, a + t.trace)
  {
    RunAppend(m, dis, a, b);
    RunAppend(m, dis, a + b, c);
  }

  /** `Disassembler(filename)` with the file's contents, the magic number,
      the deserializer and `dis` given, adding to the class-level dictionary
      `shared`. `None` stands for an exception escaping `__init__`:
      - the `EOFError` of `marshal.loads(b'')` when the file has no byte after
        the 16-byte header, so `load` has nothing to deserialize;
      - the `AttributeError` that `meta_analysis` raises when the
        deserialized root is not a code object (it reads the root's
        `co_filename`), before anything is analyzed;
      - the `ValueError` of a block without a key, after which no instance
        reaches the caller, yet the blocks stored before the error stay in
        the shared dictionary. */
  method Construct(filename: string, file: seq<byte>, magic: seq<byte>,
                   loads: seq<byte> -> Value, dis: CodeUnit -> string, shared: SharedListing)
    returns (d: Option<Disassembler>)
    modifies shared
    ensures |file| <= PayloadStart ==> d.None? && shared.entries == old(shared.entries)
    ensures |file| > PayloadStart && !loads(Payload(file)).Code? ==>
              d.None? && shared.entries == old(shared.entries)
    ensures |file| > PayloadStart && loads(Payload(file)).Code? ==>
              var r := Run(old(shared.entries), dis, PreOrder(loads(Payload(file))));
              shared.entries == r.entries && (d.Some? <==> r.ok)
    ensures d.Some? ==> fresh(d.value) && d.value.disassembly == shared && d.value.bytes == file
                        && (d.value.magicMismatch <==> !(magic <= file))
                        && d.value.metadata.timestampField == Slice(file, TimestampStart, TimestampEnd)
                        && d.value.codeObject == loads(Payload(file))
                        && d.value.analyzed == PreOrder(d.value.codeObject)
  {
    PayloadSpec(file);
    if |Payload(file)| == 0 || !Load(file, loads).Code? {
      return None;
    }
    var x := new Disassembler.Open(filename, file, magic, loads, dis, shared);
    var ok := x.Decompose();
    if ok {
      d := Some(x);
    } else {
      d := None;
    }
  }
}
