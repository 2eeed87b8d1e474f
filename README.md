# pycd in Dafny

pycd is a disassembler for compiled Python modules (`.pyc` files). Its only
program, `pycd.py`, defines one class, `Disassembler`. Constructing it with a
file name does four things:

- it reads the file and warns when the file does not start with the
  interpreter's magic number;
- it deserializes everything after the 16-byte header with `marshal.loads`;
- it reads a timestamp field from the header;
- it walks the resulting code object.

Walking hands every code object it reaches to `analyze`. That method prints
the object's `dis.dis` listing into a string, cuts the listing into blocks
at blank lines, and removes the first line of any block that opens a nested
unit ("Disassembly of ..."). It then reads a number from the digits among
the block's first nine characters and stores the block under that number.
The store is one dictionary kept as a class attribute: every instance adds
to it, and nothing ever empties it.

The model has five modules:

- `Text` (`text.dfy`): the Python string operations involved. These are
  `str.split`, `str.join`, `str.startswith`, `s[:n]`, `re.sub('[^0-9]+', '', s)`,
  `str.strip` and `int` on a digit string. Lemmas cover joining after
  splitting, dropping the first line, and what the digit filter keeps.
- `CodeGraph` (`code_graph.dfy`): the tree of values the deserializer
  returns (a code unit and its constant pool). The attributes that only
  `dis` reads, and the contents of non-code constants, are opaque fields,
  so two code objects that differ anywhere stay two values. It defines the order in which
  `walk` visits the tree, and proves that this order is a pre-order in
  constant-pool order, with one visit per occurrence of a code unit. An
  independent stack-driven search is proved to emit the same order.
- `Header` (`header.dfy`): Python's clamped slices, and the byte ranges that
  `read`, `load` and `meta_analysis` see.
- `Listing` (`listing.dfy`): the store loop of `analyze` as functions on
  values. The loop `StoreBlocks` takes the block rewrite and the key reader
  as parameters, so its lemmas hold for any pair; `analyze` uses it with
  `Normalize` (drop a "Disassembly of" line) and `Key` (the number among
  the first nine characters). Lemmas cover:
  - the key rule;
  - last block wins;
  - nothing stored before is removed;
  - the loop stops at the first block without a key;
  - a sequence of `analyze` calls acts as one store loop.
- `Pycd` (`disassembler.dfy`):
  - `SharedListing` is the dictionary object bound to the class attribute.
  - `Disassembler` is the class. Its methods `Analyze` (a `for` loop that
    updates the shared dictionary in place), `Walk` (recursive, with a
    `for` loop over the constant pool) and `Decompose` are each proved
    against the functions of `Listing`.
  - The ghost field `analyzed` records the values handed to `analyze`, in
    call order.
  - `Construct` is `Disassembler(filename)` with three of its exceptions
    as error paths: the `EOFError` of an empty payload, the
    `AttributeError` of a root that is not a code object, and the
    `ValueError` of a block without a key.

Foreign calls become parameters:
- the file's contents stand for `open(...).read()`;
- `magic` stands for `importlib.util.MAGIC_NUMBER`;
- `loads: seq<byte> -> Value` stands for `marshal.loads` on a non-empty payload (the empty one raises, see below);
- `dis: CodeUnit -> string` stands for the text `dis.dis` prints, as
  captured by `capture_std`.

Python's `ValueError` from `int('')` is kept as an error path: `Analyze`,
`Walk`, `Decompose` and `Construct` report it through a `false` result
(`None` for `Construct`). Blocks stored before the error stay stored.

Behaviour of the code worth knowing:
- **Short files.** `read` and `load` slice without checking the length. A
  file of 16 bytes or fewer gives an empty payload, and `marshal.loads(b'')`
  raises `EOFError`, so `__init__` fails before anything is analyzed
  (`Header.PayloadSpec`, `Pycd.Construct`). There is no dedicated error for
  a truncated header. A file of fewer than 12 bytes would also give a short
  timestamp field (`Header.TimestampSpec`), but it fails at `load` first.
- **Listing keys.** Each block is stored under the number found among its
  first nine characters, not under an identity of its code unit. A later
  block with the same number replaces an earlier one: within a unit, across
  units and across instances (`Listing.StoreBlocksLastWins`,
  `Listing.SameKeyOverwrites`).
- **Shared units.** A code unit is walked again each time it occurs; nothing
  is deduplicated (`CodeGraph.VisitedTwice`, `Pycd.WalkTrace`).
- **Decoding.** Instruction decoding (operands, line tables, jump targets) is
  all done by `dis`, so it appears here only as the parameter `dis`.

## Model

| member | source | states |
|---|---|---|
| Text.Split | pycd.py:118 | `str.split` with a non-empty separator always yields at least one piece |
| Text.JoinSplit | pycd.py:118-121 | joining the pieces of a split with the same separator gives back the original text |
| Text.SplitPiecesFree | pycd.py:118 | no piece of a split contains the separator |
| Text.SplitCutsLeftmost | pycd.py:118 | the first cut is at the leftmost occurrence of the separator: the first piece ends where that occurrence begins and no occurrence begins inside it |
| Text.SplitRest | pycd.py:118 | after the first cut the remaining pieces are the split of the text after that separator, so with `SplitCutsLeftmost` every cut is the leftmost one left, even for the self-overlapping separator "\n\n" |
| Text.DropFirstLineSpec | pycd.py:121 | `"\n".join(s.split("\n")[1:])` removes everything up to and including the first line feed; a text with no line feed becomes empty |
| Text.Take | pycd.py:122 | `s[:n]` is a prefix of `s` of length `min(n, len(s))` |
| Text.DigitsSpec | pycd.py:122 | the digit filter keeps only digits and is never longer than its input; it is empty exactly when the input has no digit, and it is the identity on digit strings |
| Text.DigitsAppend | pycd.py:122 | the digit filter distributes over concatenation |
| Text.StripDigits | pycd.py:122 | `strip()` leaves a digit string unchanged, so after the digit filter it has no effect |
| Text.ParseInt | pycd.py:122 | `int()` succeeds exactly on a non-empty string of digits |
| Text.Show | pycd.py:122 | the decimal spelling of a number is a non-empty digit string; the source has no `str(n)`, this is the inverse of `int()` that `ShowRoundTrip` and `KeyOfNumberedLine` use to state which texts give key `n` |
| Text.ShowRoundTrip | pycd.py:122 | `int` of the decimal spelling of `n` is `n` |
| CodeGraph.PreOrderLength | pycd.py:97-102 | the traversal has one entry per code-unit occurrence of the tree: no deduplication, and non-code constants add nothing |
| CodeGraph.ConstsOrderLength | pycd.py:100-102 | the loop over a constant pool visits as many values as the pool's code-typed constants' trees hold code units |
| CodeGraph.PreOrderTailIsCode | pycd.py:101-102 | everything visited after the root is a code unit |
| CodeGraph.ConstsOrderIsCode | pycd.py:101-102 | the loop over a constant pool visits only code units |
| CodeGraph.ConstsOrderAppend | pycd.py:100-102 | visiting the pool `a + b` visits pool `a`, then pool `b` |
| CodeGraph.SubtreeContiguous | pycd.py:100-102 | a code-typed constant's subtree is visited as one contiguous stretch that begins with the constant itself |
| CodeGraph.SiblingOrder | pycd.py:100-102 | an earlier constant's whole subtree is visited before a later constant is reached |
| CodeGraph.VisitedTwice | pycd.py:100-102 | a code unit that occurs twice in a pool is visited at two distinct positions |
| CodeGraph.ForestAppend | pycd.py:100-102 | the traversal of a sequence of trees distributes over concatenation |
| CodeGraph.ConstsOrderIsForest | pycd.py:100-102 | the loop over a pool visits the trees of its code-typed constants one after another |
| CodeGraph.StackOrderIsForest | pycd.py:93-102 | a stack-driven depth-first search emits the recursive traversals of the stacked trees, top first |
| CodeGraph.PreOrderIsStackOrder | pycd.py:93-102 | `walk`'s recursive order equals a depth-first search with an explicit stack: pre-order, with siblings in pool order |
| CodeGraph.ConstSmaller | pycd.py:102 | each constant is a smaller tree than the unit holding it, so `walk` terminates |
| Header.Slice | pycd.py:49 | a Python slice with non-negative bounds clamps both bounds: its length and elements are those of the overlap |
| Header.Read | pycd.py:53-60 | `read` returns the whole file even on a mismatch; it warns exactly when the file does not start with the magic number |
| Header.PayloadSpec | pycd.py:64 | the deserializer gets `bytes[16:]`: the bytes after the 16-byte header, together with the header the whole file, and empty exactly when the file has 16 bytes or fewer |
| Header.TimestampSpec | pycd.py:49 | the timestamp field that `meta_analysis` unpacks from `bytes[:12][8:12]` is bytes 8 to 12 of the file: at most four bytes, exactly those four when present |
| Header.GapUnread | pycd.py:49 | bytes 12 to 16 reach neither the deserializer nor the metadata |
| Listing.NormalizeSpec | pycd.py:120-121 | a block starting with "Disassembly of" loses exactly its first line (all of it when it has one line); any other block is stored verbatim |
| Listing.KeySpec | pycd.py:122 | the key exists exactly when one of the first nine characters is a digit; it is the number spelled by those digits together, everything else discarded |
| Listing.KeyOfNumberedLine | pycd.py:122 | a block that opens with non-digit padding and then a number, with no other digit among the first nine characters, has that number as its key |
| Listing.KeyJoinsScatteredDigits | pycd.py:122 | two digit runs separated only by non-digits within the first nine characters are read as one number, the decimal value of the runs joined ("1 2" gives 12) |
| Listing.StoreBlocksAppend | pycd.py:119-123 | the store loop over `a + b` runs over `a`, then over `b` unless `a` raised |
| Listing.StoreStep | pycd.py:119-123 | turn `i` of the loop: a block with a key extends what is stored, and a block without one makes the whole loop raise, keeping what was stored |
| Listing.StoreBlocksOk | pycd.py:122 | the loop finishes without `ValueError` exactly when every block has a key |
| Listing.StoreBlocksKeeps | pycd.py:123 | no key is ever removed, and a key that no block produces keeps its old value, including entries left by earlier calls and by other instances, which share the class-level dictionary (pycd.py:35) |
| Listing.StoreBlocksLastWins | pycd.py:123 | after a full loop, each key produced holds the rewritten block of the last block that produced it (for `analyze`: the block after `Normalize`) |
| Listing.StoreBlocksOnlyProduced | pycd.py:123 | after a full loop, every key is one that was already there or one that some block produced |
| Listing.StoreBlocksFailure | pycd.py:122-123 | at the first block without a key the loop raises, keeping exactly what the blocks before it stored |
| Listing.EmptyListingRaises | pycd.py:117-122 | a unit with an empty listing makes `analyze` raise without storing anything |
| Listing.Run | pycd.py:93-102 | the values handed to `analyze` are a prefix of those to visit; all of them when nothing raised, at least one otherwise |
| Listing.RunAppend | pycd.py:93-102 | the calls over `a + b` are the calls over `a`, then over `b` unless one of `a` raised |
| Listing.RunIsStoreAll | pycd.py:115-123 | a sequence of `analyze` calls acts as one store loop over all their blocks, so the block-level facts hold across units |
| Listing.SameKeyOverwrites | pycd.py:115-123 | two units whose single blocks share a key leave one entry in the shared dictionary (pycd.py:35), holding the second unit's block |
| Pycd.SharedListing.constructor | pycd.py:35 | the class attribute starts as an empty dictionary |
| Pycd.Disassembler.Open | pycd.py:45-49 | for a file with a non-empty payload whose root is a code object (the other files raise in `__init__`), the instance keeps the whole file, the warning flag, the deserialized `bytes[16:]` and the timestamp field of `bytes[:12]`, and shares the class-level dictionary |
| Pycd.Disassembler.Analyze | pycd.py:105-123 | the call is logged; the dictionary and the error flag are those of the store loop over the unit's blocks; a value that is not a code unit changes nothing |
| Pycd.Disassembler.Walk | pycd.py:93-102 | the dictionary, the error flag and the logged calls are those of `analyze` applied in pre-order, stopping at the first error |
| Pycd.Disassembler.Decompose | pycd.py:88-90 | walking the deserialized code object, with the effect of `Walk` |
| Pycd.WalkTrace | pycd.py:93-102 | `walk` analyzes the root first and then a prefix of the pre-order; when nothing raises, it makes one call per code-unit occurrence and never more |
| Pycd.RunFirst | pycd.py:95 | the first call of the walk analyzes the root; if it raises, the walk ends there |
| Pycd.ConstsOrderSnoc | pycd.py:100-102 | one more turn of the constant loop extends the visited prefix by that constant's subtree, or by nothing for a non-code constant |
| Pycd.PreOrderAround | pycd.py:100-102 | a unit's traversal is the unit, the subtrees before constant `i`, the subtree of `i`, then the subtrees after it |
| Pycd.RunStopsIn | pycd.py:100-102 | an error inside one constant's subtree ends the whole walk; later constants are never reached |
| Pycd.Construct | pycd.py:45-50 | a file of 16 bytes or fewer (`marshal.loads(b'')` raises) or a root that is not a code object raises before anything is stored; otherwise the shared dictionary is what the walk leaves, and an instance comes back exactly when no block lacked a key, with the warning flag, the timestamp field and the code object of `Open`, and every unit analyzed in pre-order |

## Left out

- File access (`os.path.exists`, `open`, the `IOError` for a missing file,
  pycd.py:53-57): the file's contents are a parameter of `Header.Read` and
  `Pycd.Construct`.
- `importlib.util.MAGIC_NUMBER` (pycd.py:21): a parameter `magic`.
- `print` of the magic-number warning (pycd.py:59): modelled as the flag
  `magicMismatch`.
- `marshal.loads` (pycd.py:64): a parameter `loads`, since its source is not
  part of this repository. The object encoding is not modelled.
- Pycd.Construct: of the deserializer's errors only the `EOFError` on an
  empty payload is modelled; `loads` is taken to succeed on every non-empty
  payload, so a corrupt or truncated payload that `marshal.loads` rejects is
  not an error path of the model.
- `dis.dis` and `capture_std`'s redirection of standard output
  (pycd.py:38-42, 117): a parameter `dis` giving the listing text of a unit.
- `struct.unpack('L', ...)`, `time.localtime` and `time.asctime`
  (pycd.py:68-70): the compile time is opaque. The model keeps the 4-byte
  field those calls receive. `'L'` has the platform's native size, so where
  an unsigned long is 8 bytes `unpack` raises `struct.error` on that field
  and `__init__` fails before walking. `Pycd.Construct` does not model that
  failure; it describes the platforms where the size is 4.
- `meta_analysis`'s field projection (pycd.py:76-85): it copies attributes
  of the foreign code object. Only its `AttributeError` for a root that is
  not a code object is kept, in `Pycd.Construct`.
- Pycd.Disassembler.Open: `metadata` holds only the timestamp field, for the
  two reasons above.
- The class attribute `metadata` (pycd.py:34) and `opcode_fields`
  (pycd.py:23-32): the code never reads or writes them.
- `getattr(co, 'co_consts', None)` (pycd.py:97) on a value that is not a
  code object is taken to be `None`. The tree has no other objects that
  carry `co_consts`.
- Python `int` also accepts surrounding whitespace, a sign and underscores.
  None of these can reach it after the digit filter, so `Text.ParseInt`
  accepts digit strings only.
- `examples/example.py`: a driver script with a fixed path and `pprint`
  output.
- `walk`'s parameter `iteration=0` (pycd.py:93): no caller passes it and the
  body never reads it (its only use is commented out), so `Walk` has no
  such parameter.
- The dictionary's insertion order: `map<nat, string>` has none, while a
  Python `dict` iterates in insertion order and an overwritten key keeps its
  place. Nothing in pycd.py iterates the dictionary, so no behaviour depends
  on it.
- Concurrency: none in the source.
