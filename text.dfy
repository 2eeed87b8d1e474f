/** The handful of Python string operations the disassembler applies to the
    text listing of a code unit: `str.split`, `str.join`, `str.startswith`,
    the slice `s[:n]`, `re.sub('[^0-9]+', '', s)`, `str.strip` and `int`
    on a string of decimal digits. Python's `str` is a sequence of code
    points, modelled as `string`. */
module Text {

  datatype Option<T> = None | Some(value: T)

  // ---------------------------------------------------------------------
  // Splitting and joining

  /** Python's `s.split(sep)` for a non-empty separator: the pieces of `s`
      between the non-overlapping occurrences of `sep`, found left to right. */
  function Split(s: string, sep: string): (parts: seq<string>)
    requires |sep| > 0
    ensures |parts| >= 1
    decreases |s|
  {
    if |s| < |sep| then [s]
    else if s[..|sep|] == sep then [""] + Split(s[|sep|..], sep)
    else
      var rest := Split(s[1..], sep);
      [[s[0]] + rest[0]] + rest[1..]
  }

  /** Python's `sep.join(parts)`. */
  function Join(parts: seq<string>, sep: string): string
  {
    if |parts| == 0 then ""
    else if |parts| == 1 then parts[0]
    else parts[0] + sep + Join(parts[1..], sep)
  }

  /** `sep` occurs in `s` starting at index `i`. */
  predicate OccursAt(s: string, sep: string, i: int)
  {
    0 <= i && i + |sep| <= |s| && s[i..i + |sep|] == sep
  }

  /** `sep` does not occur anywhere in `s`. */
  predicate Free(s: string, sep: string)
  {
    forall i :: 0 <= i <= |s| - |sep| ==> !OccursAt(s, sep, i)
  }

  lemma JoinConsHead(c: char, parts: seq<string>, sep: string)
    requires |parts| >= 1
    ensures Join([[c] + parts[0]] + parts[1..], sep) == [c] + Join(parts, sep)
  {
    var q := [[c] + parts[0]] + parts[1..];
    assert q[1..] == parts[1..];
  }

  /** Joining the pieces of a split with the same separator gives back the
      original string: splitting loses nothing. */
  lemma {:induction false} JoinSplit(s: string, sep: string)
    requires |sep| > 0
    ensures Join(Split(s, sep), sep) == s
    decreases |s|
  {
    if |s| < |sep| {
    } else if s[..|sep|] == sep {
      JoinSplit(s[|sep|..], sep);
      var rest := Split(s[|sep|..], sep);
      assert Split(s, sep) == [""] + rest;
      assert ([""] + rest)[1..] == rest;
      assert s == s[..|sep|] + s[|sep|..];
    } else {
      JoinSplit(s[1..], sep);
      JoinConsHead(s[0], Split(s[1..], sep), sep);
      assert s == [s[0]] + s[1..];
    }
  }

  /** No piece of a split contains the separator, so the pieces are exactly
      the maximal separator-free stretches that `Join` glues back together. */
  lemma {:induction false} SplitPiecesFree(s: string, sep: string)
    requires |sep| > 0
    ensures forall j :: 0 <= j < |Split(s, sep)| ==> Free(Split(s, sep)[j], sep)
    decreases |s|
  {
    var parts := Split(s, sep);
    if |s| < |sep| {
      assert parts == [s];
    } else if s[..|sep|] == sep {
      SplitPiecesFree(s[|sep|..], sep);
      var rest := Split(s[|sep|..], sep);
      assert parts == [""] + rest;
      forall j | 0 <= j < |parts| ensures Free(parts[j], sep) {
        if j > 0 { assert parts[j] == rest[j - 1]; }
      }
    } else {
      SplitPiecesFree(s[1..], sep);
      var rest := Split(s[1..], sep);
      var head := [s[0]] + rest[0];
      JoinSplit(s[1..], sep);
      assert parts == [head] + rest[1..];
      PrefixOfJoin(rest, sep);
      assert rest[0] <= s[1..];
      assert head[1..] == rest[0];
      FreeCons(head, s, sep);
      forall j | 0 <= j < |parts| ensures Free(parts[j], sep) {
        if j > 0 { assert parts[j] == rest[j]; }
      }
    }
  }

  /** A separator-free piece stays free when the character before it is put
      in front, as long as the text they start does not start with `sep`. */
  lemma FreeCons(head: string, s: string, sep: string)
    requires |head| >= 1 && head <= s
    requires |s| >= |sep| ==> s[..|sep|] != sep
    requires Free(head[1..], sep)
    ensures Free(head, sep)
  {
    forall i | 0 <= i <= |head| - |sep| ensures !OccursAt(head, sep, i) {
      if i == 0 {
        assert head[..|sep|] == s[..|sep|];
      } else {
        var tail := head[1..];
        var here, there := head[i..i + |sep|], tail[i - 1..i - 1 + |sep|];
        forall t | 0 <= t < |sep| ensures here[t] == there[t] {
          assert tail[i - 1 + t] == head[i + t];
        }
        assert here == there;
        assert !OccursAt(tail, sep, i - 1);
      }
    }
  }

  /** `str.split` makes its first cut at the leftmost occurrence of the
      separator: the first piece ends where the first occurrence begins, and
      no occurrence begins inside it. With `SplitRest`, every cut is the
      leftmost one left, which decides between splits that `JoinSplit` and
      `SplitPiecesFree` alone allow for a self-overlapping separator such as
      "\n\n": "\n\n\n" is cut into "" and "\n", not into "\n" and "". */
  lemma {:induction false} SplitCutsLeftmost(s: string, sep: string)
    requires |sep| > 0
    ensures |Split(s, sep)| >= 2 ==> OccursAt(s, sep, |Split(s, sep)[0]|)
    ensures forall i :: 0 <= i < |Split(s, sep)[0]| ==> !OccursAt(s, sep, i)
    decreases |s|
  {
    if |s| < |sep| {
    } else if s[..|sep|] == sep {
      assert OccursAt(s, sep, 0);
    } else {
      var rest := Split(s[1..], sep);
      SplitCutsLeftmost(s[1..], sep);
      var parts := Split(s, sep);
      assert parts == [[s[0]] + rest[0]] + rest[1..];
      if |parts| >= 2 {
        OccursShift(s, sep, |rest[0]|);
      }
      forall i | 0 <= i < |parts[0]| ensures !OccursAt(s, sep, i) {
        if i > 0 {
          OccursShift(s, sep, i - 1);
        }
      }
    }
  }

  /** After the first cut, the remaining pieces are the split of the text
      after that occurrence of the separator: the split resumes there. */
  lemma {:induction false} SplitRest(s: string, sep: string)
    requires |sep| > 0
    ensures |Split(s, sep)| >= 2 ==>
              |Split(s, sep)[0]| + |sep| <= |s|
              && Split(s, sep)[1..] == Split(s[|Split(s, sep)[0]| + |sep|..], sep)
    decreases |s|
  {
    var parts := Split(s, sep);
    if |s| < |sep| {
    } else if s[..|sep|] == sep {
      var after := Split(s[|sep|..], sep);
      assert parts == [""] + after;
      assert parts[1..] == after;
    } else {
      var rest := Split(s[1..], sep);
      SplitRest(s[1..], sep);
      assert parts == [[s[0]] + rest[0]] + rest[1..];
      if |parts| >= 2 {
        var n := |rest[0]| + |sep|;
        assert |parts[0]| + |sep| == n + 1;
        var after := s[1..][n..];
        assert rest[1..] == Split(after, sep);
        assert after == s[n + 1..];
        assert parts[1..] == rest[1..];
      }
    }
  }

  /** An occurrence one character further into `s` is an occurrence in `s[1..]`. */
  lemma OccursShift(s: string, sep: string, i: nat)
    requires |s| >= 1
    ensures OccursAt(s, sep, i + 1) <==> OccursAt(s[1..], sep, i)
  {
    if i + 1 + |sep| <= |s| {
      var here, there := s[i + 1..i + 1 + |sep|], s[1..][i..i + |sep|];
      forall t | 0 <= t < |sep| ensures here[t] == there[t] {
      }
      assert here == there;
    }
  }

  lemma PrefixOfJoin(parts: seq<string>, sep: string)
    requires |parts| >= 1
    ensures parts[0] <= Join(parts, sep)
  {
  }

  // ---------------------------------------------------------------------
  // Lines

  /** `"\n".join(s.split("\n")[1:])`: the text without its first line. */
  function DropFirstLine(s: string): string
  {
    Join(Split(s, "\n")[1..], "\n")
  }

  /** Dropping the first line removes everything up to and including the
      first line feed; a text without a line feed becomes empty. */
  lemma {:induction false} DropFirstLineSpec(s: string)
    ensures (forall i :: 0 <= i < |s| ==> s[i] != '\n') ==> DropFirstLine(s) == ""
    ensures forall k :: 0 <= k < |s| && s[k] == '\n' && (forall i :: 0 <= i < k ==> s[i] != '\n')
                        ==> DropFirstLine(s) == s[k + 1..]
  {
    if |s| == 0 {
      assert Split(s, "\n") == [s];
    } else if s[..1] == "\n" {
      assert s[0] == '\n';
      var rest := Split(s[1..], "\n");
      assert Split(s, "\n")[1..] == rest;
      JoinSplit(s[1..], "\n");
    } else {
      assert s[0] != '\n';
      DropFirstLineSpec(s[1..]);
      var rest := Split(s[1..], "\n");
      assert Split(s, "\n")[1..] == rest[1..];
      assert DropFirstLine(s) == DropFirstLine(s[1..]);
      forall k | 0 <= k < |s| && s[k] == '\n' && (forall i :: 0 <= i < k ==> s[i] != '\n')
        ensures DropFirstLine(s) == s[k + 1..]
      {
        assert k > 0;
        assert s[1..][k - 1] == '\n';
        forall i | 0 <= i < k - 1 ensures s[1..][i] != '\n' {
          assert s[1..][i] == s[i + 1];
        }
        assert s[1..][k..] == s[k + 1..];
      }
      if forall i :: 0 <= i < |s| ==> s[i] != '\n' {
        forall i | 0 <= i < |s[1..]| ensures s[1..][i] != '\n' {
          assert s[1..][i] == s[i + 1];
        }
      }
    }
  }

  /** Python's `s.startswith(prefix)`. */
  predicate StartsWith(s: string, prefix: string)
  {
    prefix <= s
  }

  /** Python's `s[:n]` for a non-negative `n`: at most the first `n` characters. */
  function Take(s: string, n: nat): (r: string)
    ensures r <= s
    ensures |r| == if |s| < n then |s| else n
  {
    if |s| < n then s else s[..n]
  }

  // ---------------------------------------------------------------------
  // Digits

  predicate IsDigit(c: char)
  {
    '0' <= c <= '9'
  }

  predicate AllDigits(s: string)
  {
    forall i :: 0 <= i < |s| ==> IsDigit(s[i])
  }

  /** `re.sub('[^0-9]+', '', s)`: `s` with every character other than an
      ASCII decimal digit deleted. */
  function Digits(s: string): string
  {
    if s == [] then []
    else if IsDigit(s[0]) then [s[0]] + Digits(s[1..])
    else Digits(s[1..])
  }

  /** What `Digits` keeps: only digits, all of the digits and nothing when
      there is no digit. */
  lemma {:induction false} DigitsSpec(s: string)
    ensures AllDigits(Digits(s))
    ensures |Digits(s)| <= |s|
    ensures Digits(s) == [] <==> forall i :: 0 <= i < |s| ==> !IsDigit(s[i])
    ensures AllDigits(s) ==> Digits(s) == s
  {
    if s != [] {
      DigitsSpec(s[1..]);
      if !IsDigit(s[0]) && Digits(s) == [] {
        forall i | 0 <= i < |s| ensures !IsDigit(s[i]) {
          if i > 0 { assert s[i] == s[1..][i - 1]; }
        }
      }
      if AllDigits(s) {
        assert AllDigits(s[1..]) by {
          forall i | 0 <= i < |s[1..]| ensures IsDigit(s[1..][i]) {
            assert s[1..][i] == s[i + 1];
          }
        }
        assert s == [s[0]] + s[1..];
      }
    }
  }

  lemma {:induction false} DigitsAppend(a: string, b: string)
    ensures Digits(a + b) == Digits(a) + Digits(b)
  {
    if a != [] {
      assert (a + b)[1..] == a[1..] + b;
      DigitsAppend(a[1..], b);
    } else {
      assert a + b == b;
    }
  }

  /** Python whitespace as `str.strip()` with no argument removes it. */
  predicate IsSpace(c: char)
  {
    || '\t' <= c <= '\r' || '\U{1c}' <= c <= '\U{1f}' || c == ' '
    || c == '\U{85}' || c == '\U{a0}' || c == '\U{1680}' || '\U{2000}' <= c <= '\U{200a}'
    || c == '\U{2028}' || c == '\U{2029}' || c == '\U{202f}' || c == '\U{205f}' || c == '\U{3000}'
  }

  function StripLeft(s: string): string
  {
    if s != [] && IsSpace(s[0]) then StripLeft(s[1..]) else s
  }

  function StripRight(s: string): string
  {
    if s != [] && IsSpace(s[|s| - 1]) then StripRight(s[..|s| - 1]) else s
  }

  /** Python's `s.strip()`. */
  function Strip(s: string): string
  {
    StripRight(StripLeft(s))
  }

  /** A string of digits has no whitespace at either end, so stripping it
      changes nothing. */
  lemma StripDigits(s: string)
    requires AllDigits(s)
    ensures Strip(s) == s
  {
  }

  function DigitValue(c: char): nat
    requires IsDigit(c)
  {
    (c as int) - ('0' as int)
  }

  /** The number a string of decimal digits spells, most significant first. */
  function DecimalValue(s: string): nat
    requires AllDigits(s)
  {
    if s == [] then 0 else 10 * DecimalValue(s[..|s| - 1]) + DigitValue(s[|s| - 1])
  }

  /** Python's `int(s)` on a string with no whitespace or sign: the decimal
      value when `s` is a non-empty run of digits, an error (`None`, for
      Python's `ValueError`) otherwise, the empty string included. */
  function ParseInt(s: string): (r: Option<nat>)
    ensures r.Some? <==> s != [] && AllDigits(s)
  {
    if s != [] && AllDigits(s) then Some(DecimalValue(s)) else None
  }

  /** The canonical decimal spelling of `n`, as Python's `str(n)`. */
  function Show(n: nat): (r: string)
    ensures |r| >= 1 && AllDigits(r)
  {
    var d := ['0' + ((n % 10) as char)];
    if n < 10 then d else Show(n / 10) + d
  }

  /** Reading back the decimal spelling of a number gives the number. */
  lemma {:induction false} ShowRoundTrip(n: nat)
    ensures ParseInt(Show(n)) == Some(n)
  {
    var s := Show(n);
    var d := ['0' + ((n % 10) as char)];
    assert DigitValue(s[|s| - 1]) == n % 10;
    if n < 10 {
      assert s == d && s[..|s| - 1] == [];
      assert DecimalValue(s) == 10 * DecimalValue([]) + n % 10;
    } else {
      ShowRoundTrip(n / 10);
      assert s == Show(n / 10) + d;
      assert s[..|s| - 1] == Show(n / 10);
      assert DecimalValue(s) == 10 * (n / 10) + n % 10;
    }
  }
}
