/**
 * The two string helpers of StudentGradeManager.cpp, `split` (built on `getline`)
 * and `trim`, together with joining, line termination and the lexicographic order
 * of `std::string` that the grade map is kept in.
 */
module Text {

  // ---------- trim ----------

  /** The characters `trim` strips: space, tab, CR and LF. */
  predicate IsBlank(c: char) {
    c == ' ' || c == '\t' || c == '\r' || c == '\n'
  }

  /** `find_first_not_of(" \t\r\n")`, with `|s|` standing for `npos`. */
  function FirstNonBlank(s: string): (i: nat)
    ensures i <= |s|
    ensures forall k :: 0 <= k < i ==> IsBlank(s[k])
    ensures i < |s| ==> !IsBlank(s[i])
    decreases |s|
  {
    if s == [] || !IsBlank(s[0]) then 0 else 1 + FirstNonBlank(s[1..])
  }

  /** One past `find_last_not_of(" \t\r\n")`, or 0 when every character is blank. */
  function EndNonBlank(s: string): (j: nat)
    ensures j <= |s|
    ensures forall k :: j <= k < |s| ==> IsBlank(s[k])
    ensures j > 0 ==> !IsBlank(s[j - 1])
    decreases |s|
  {
    if s == [] then 0
    else if !IsBlank(s[|s| - 1]) then |s|
    else EndNonBlank(s[..|s| - 1])
  }

  /** `trim`: the text between the first and the last non-blank character. */
  function Trim(s: string): (r: string)
    ensures |r| <= |s|
    ensures r == [] <==> forall k :: 0 <= k < |s| ==> IsBlank(s[k])
    ensures r != [] ==> !IsBlank(r[0]) && !IsBlank(r[|r| - 1])
  {
    var start := FirstNonBlank(s);
    if start == |s| then ""
    else
      var end := EndNonBlank(s);
      s[start..end]
  }

  /** `s[i..j]` is a trimming of `s`: only blanks outside it, none at its ends. */
  ghost predicate TrimmedSlice(s: string, i: int, j: int) {
    && 0 <= i <= j <= |s|
    && (forall k :: 0 <= k < i ==> IsBlank(s[k]))
    && (forall k :: j <= k < |s| ==> IsBlank(s[k]))
    && (i < j ==> !IsBlank(s[i]) && !IsBlank(s[j - 1]))
  }

  /** A string with no blank at either end. */
  predicate Unpadded(s: string) {
    s == [] || (!IsBlank(s[0]) && !IsBlank(s[|s| - 1]))
  }

  /** Every trimmed slice of `s` is what `Trim` returns: the result is a contiguous
      piece of `s` and is determined by the blanks around it. */
  lemma TrimIsSlice(s: string, i: int, j: int)
    requires TrimmedSlice(s, i, j)
    ensures Trim(s) == s[i..j]
  {
    if i == j {
      assert forall k :: 0 <= k < |s| ==> IsBlank(s[k]);
    }
  }

  /** `Trim` returns a trimmed slice of its argument. */
  lemma TrimSliceExists(s: string) returns (i: nat, j: nat)
    ensures TrimmedSlice(s, i, j) && Trim(s) == s[i..j]
  {
    i := FirstNonBlank(s);
    if i == |s| {
      j := i;
    } else {
      j := EndNonBlank(s);
    }
  }

  /** An unpadded string is its own trimming. */
  lemma TrimUnpadded(s: string)
    requires Unpadded(s)
    ensures Trim(s) == s
  {
    TrimIsSlice(s, 0, |s|);
  }

  /** `trim` is idempotent. */
  lemma TrimIdempotent(s: string)
    ensures Trim(Trim(s)) == Trim(s)
  {
    TrimUnpadded(Trim(s));
  }

  // ---------- split ----------

  /** Index of the first `d` in `s`, or `|s|` when there is none. */
  function FirstIndex(s: string, d: char): (j: nat)
    ensures j <= |s|
    ensures forall k :: 0 <= k < j ==> s[k] != d
    ensures j < |s| ==> s[j] == d
    decreases |s|
  {
    if s == [] || s[0] == d then 0 else 1 + FirstIndex(s[1..], d)
  }

  /**
   * `split(s, d)`: the pieces `getline(ss, item, d)` extracts one after another.
   * Each call yields the text up to the next `d`; a call that starts at the end of
   * the text extracts nothing and fails, so a trailing `d` yields no final empty
   * piece and the empty string yields no piece at all.
   */
  function Split(s: string, d: char): (parts: seq<string>)
    ensures parts == [] <==> s == []
    decreases |s|
  {
    if s == [] then []
    else
      var j := FirstIndex(s, d);
      if j == |s| then [s] else [s[..j]] + Split(s[j + 1..], d)
  }

  /** No piece returned by `split` contains the delimiter. */
  lemma {:induction false} SplitPiecesAvoid(s: string, d: char)
    ensures forall i :: 0 <= i < |Split(s, d)| ==> d !in Split(s, d)[i]
    decreases |s|
  {
    if s != [] {
      var j := FirstIndex(s, d);
      assert d !in s[..j] by {
        forall k | 0 <= k < j ensures s[..j][k] != d { }
      }
      if j < |s| {
        SplitPiecesAvoid(s[j + 1..], d);
      }
    }
  }

  /** The pieces joined with `d` between them. */
  function Join(parts: seq<string>, d: char): string
    decreases |parts|
  {
    if parts == [] then ""
    else if |parts| == 1 then parts[0]
    else parts[0] + [d] + Join(parts[1..], d)
  }

  /** Each piece followed by `d`: the text a writer produces with one `d` after every item. */
  function Terminate(parts: seq<string>, d: char): string
    decreases |parts|
  {
    if parts == [] then "" else parts[0] + [d] + Terminate(parts[1..], d)
  }

  /** `s` without its final character when that character is `d`. */
  function DropTrailing(s: string, d: char): string {
    if s != [] && s[|s| - 1] == d then s[..|s| - 1] else s
  }

  /** The first piece is everything before the first delimiter. */
  lemma FirstIndexOfJoin(x: string, d: char, rest: string)
    requires d !in x
    ensures FirstIndex(x + [d] + rest, d) == |x|
  {
    var s := x + [d] + rest;
    assert s[|x|] == d;
    assert forall k :: 0 <= k < |x| ==> s[k] == x[k];
  }

  /** Splitting the text `x d rest` yields `x` and then the pieces of `rest`. */
  lemma SplitCons(x: string, d: char, rest: string)
    requires d !in x
    ensures Split(x + [d] + rest, d) == [x] + Split(rest, d)
  {
    var s := x + [d] + rest;
    FirstIndexOfJoin(x, d, rest);
    assert s[..|x|] == x;
    assert s[|x| + 1..] == rest;
  }

  /** Text without the delimiter is a single piece. */
  lemma SplitSingle(x: string, d: char)
    requires x != [] && d !in x
    ensures Split(x, d) == [x]
  {
    assert forall k :: 0 <= k < |x| ==> x[k] in x;
  }

  /** A character other than the delimiter that no piece holds is not in their join. */
  lemma {:induction false} JoinAvoids(parts: seq<string>, d: char, c: char)
    requires c != d
    requires forall i :: 0 <= i < |parts| ==> c !in parts[i]
    ensures c !in Join(parts, d)
    decreases |parts|
  {
    if |parts| > 1 {
      assert forall i :: 0 <= i < |parts| - 1 ==> parts[1..][i] == parts[i + 1];
      JoinAvoids(parts[1..], d, c);
    }
  }

  /** Joining a leading piece onto a non-empty list of pieces. */
  lemma JoinCons(x: string, ps: seq<string>, d: char)
    requires ps != []
    ensures Join([x] + ps, d) == x + [d] + Join(ps, d)
  {
    assert ([x] + ps)[1..] == ps;
  }

  /** Dropping a trailing delimiter only touches the end of the text. */
  lemma DropTrailingAppend(p: string, rest: string, d: char)
    requires rest != []
    ensures DropTrailing(p + rest, d) == p + DropTrailing(rest, d)
  {
    if rest[|rest| - 1] == d {
      assert (p + rest)[..|p + rest| - 1] == p + rest[..|rest| - 1];
    }
  }

  /** Two pieces, each followed by the delimiter, split back into those two pieces. */
  lemma SplitPairTerminated(x: string, y: string, d: char)
    requires d !in x && d !in y && y != []
    ensures Split(x + [d] + y + [d], d) == [x, y]
  {
    SplitCons(x, d, y + [d]);
    SplitCons(y, d, []);
    assert x + [d] + y + [d] == x + [d] + (y + [d]);
    assert y + [d] == y + [d] + [];
  }

  /** Joining the pieces restores the text, less one trailing delimiter. */
  lemma {:induction false} JoinSplit(s: string, d: char)
    ensures Join(Split(s, d), d) == DropTrailing(s, d)
    decreases |s|
  {
    if s != [] {
      var j := FirstIndex(s, d);
      if j == |s| {
        assert s[|s| - 1] != d;
      } else {
        var x, rest := s[..j], s[j + 1..];
        assert s == x + [d] + rest;
        SplitCons(x, d, rest);
        JoinSplit(rest, d);
        if rest == [] {
          assert s[..|s| - 1] == x;
        } else {
          JoinCons(x, Split(rest, d), d);
          DropTrailingAppend(x + [d], rest, d);
        }
      }
    }
  }

  /** Splitting joined pieces gives them back, provided no piece holds the delimiter
      and the last piece is not empty (an empty last piece would be dropped). */
  lemma {:induction false} SplitJoin(parts: seq<string>, d: char)
    requires forall i :: 0 <= i < |parts| ==> d !in parts[i]
    requires parts != [] ==> parts[|parts| - 1] != []
    ensures Split(Join(parts, d), d) == parts
    decreases |parts|
  {
    if |parts| == 1 {
      SplitSingle(parts[0], d);
    } else if |parts| > 1 {
      SplitJoin(parts[1..], d);
      SplitCons(parts[0], d, Join(parts[1..], d));
      assert parts == [parts[0]] + parts[1..];
    }
  }

  /** Splitting delimiter-terminated pieces gives them back, empty ones included. */
  lemma {:induction false} SplitTerminate(parts: seq<string>, d: char)
    requires forall i :: 0 <= i < |parts| ==> d !in parts[i]
    ensures Split(Terminate(parts, d), d) == parts
    decreases |parts|
  {
    if parts != [] {
      SplitTerminate(parts[1..], d);
      SplitCons(parts[0], d, Terminate(parts[1..], d));
      assert parts == [parts[0]] + parts[1..];
    }
  }

  /** Appending one piece to a non-empty join. */
  lemma {:induction false} JoinSnoc(parts: seq<string>, x: string, d: char)
    requires parts != []
    ensures Join(parts + [x], d) == Join(parts, d) + [d] + x
    decreases |parts|
  {
    if |parts| > 1 {
      JoinSnoc(parts[1..], x, d);
      assert (parts + [x])[1..] == parts[1..] + [x];
    }
  }

  /** Appending one terminated piece. */
  lemma {:induction false} TerminateSnoc(parts: seq<string>, x: string, d: char)
    ensures Terminate(parts + [x], d) == Terminate(parts, d) + x + [d]
    decreases |parts|
  {
    if parts == [] {
      assert [x][1..] == [];
    } else {
      var rest := parts[1..];
      TerminateSnoc(rest, x, d);
      assert (parts + [x])[1..] == rest + [x];
      assert Terminate(parts + [x], d) == parts[0] + [d] + Terminate(rest + [x], d);
    }
  }

  /** One round of `getline` from position `pos`, stopping at `j`. */
  lemma SplitStep(s: string, d: char, pos: nat, j: nat)
    requires pos <= j <= |s| && pos < |s|
    requires forall k :: pos <= k < j ==> s[k] != d
    requires j < |s| ==> s[j] == d
    ensures Split(s[pos..], d) == [s[pos..j]] + (if j < |s| then Split(s[j + 1..], d) else [])
  {
    var item := s[pos..j];
    assert d !in item by {
      assert forall k :: 0 <= k < |item| ==> item[k] == s[pos + k];
    }
    if j < |s| {
      assert s[pos..] == item + [d] + s[j + 1..];
      SplitCons(item, d, s[j + 1..]);
    } else {
      assert s[pos..] == item;
      SplitSingle(item, d);
    }
  }

  /** What one `getline` call reads: the characters from `pos` up to the next `d`. */
  method ScanToDelimiter(s: string, d: char, pos: nat) returns (j: nat)
    requires pos <= |s|
    ensures pos <= j <= |s|
    ensures forall k :: pos <= k < j ==> s[k] != d
    ensures j < |s| ==> s[j] == d
  {
    j := pos;
    while j < |s| && s[j] != d
      invariant pos <= j <= |s|
      invariant forall k :: pos <= k < j ==> s[k] != d
      decreases |s| - j
    {
      j := j + 1;
    }
  }

  /**
   * The `getline` loop of `split`: every round extracts the text up to the next
   * delimiter, consumes the delimiter and pushes the piece; the loop stops once
   * nothing is left to extract.
   */
  method SplitByGetline(s: string, d: char) returns (elems: seq<string>)
    ensures elems == Split(s, d)
  {
    elems := [];
    var pos := 0;
    while pos < |s|
      invariant 0 <= pos <= |s|
      invariant elems + Split(s[pos..], d) == Split(s, d)
      decreases |s| - pos
    {
      var j := ScanToDelimiter(s, d, pos);
      SplitStep(s, d, pos, j);
      var next := if j < |s| then j + 1 else j;
      assert Split(s[pos..], d) == [s[pos..j]] + Split(s[next..], d);
      elems := elems + [s[pos..j]];
      pos := next;
    }
  }

  // ---------- sequence identities, proved apart from any other context ----------

  /** A non-empty sequence is its prefix followed by its last element. */
  lemma SeqSnocLast<T>(s: seq<T>)
    requires s != []
    ensures s == s[..|s| - 1] + [s[|s| - 1]]
  {
  }

  /** A non-empty sequence is its first element followed by its tail. */
  lemma SeqConsFirst<T>(s: seq<T>)
    requires s != []
    ensures s == [s[0]] + s[1..]
  {
  }

  /** A prefix one element longer is the shorter prefix followed by that element. */
  lemma SeqPrefixSnoc<T>(s: seq<T>, i: nat)
    requires i < |s|
    ensures s[..i + 1] == s[..i] + [s[i]]
  {
  }

  // ---------- string order ----------

  /** `std::string`'s `operator<`: lexicographic order on characters, a proper prefix first. */
  predicate Less(a: string, b: string)
    decreases |a|
  {
    if a == [] then b != []
    else b != [] && (a[0] < b[0] || (a[0] == b[0] && Less(a[1..], b[1..])))
  }

  lemma {:induction false} LessIrreflexive(a: string)
    ensures !Less(a, a)
    decreases |a|
  {
    if a != [] { LessIrreflexive(a[1..]); }
  }

  lemma {:induction false} LessAsymmetric(a: string, b: string)
    requires Less(a, b)
    ensures !Less(b, a)
    decreases |a|
  {
    if a != [] && b != [] && a[0] == b[0] { LessAsymmetric(a[1..], b[1..]); }
  }

  lemma {:induction false} LessTotal(a: string, b: string)
    ensures a == b || Less(a, b) || Less(b, a)
    decreases |a|
  {
    if a != [] && b != [] && a[0] == b[0] {
      LessTotal(a[1..], b[1..]);
      if a[1..] == b[1..] {
        assert a == [a[0]] + a[1..] && b == [b[0]] + b[1..];
      }
    }
  }

  lemma {:induction false} LessTransitive(a: string, b: string, c: string)
    requires Less(a, b) && Less(b, c)
    ensures Less(a, c)
    decreases |a|
  {
    if a != [] && a[0] == b[0] && b[0] == c[0] {
      LessTransitive(a[1..], b[1..], c[1..]);
    }
  }
}
