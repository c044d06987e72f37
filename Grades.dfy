/**
 * The grade map of a student (`map<string, double> grades`): `addGrade`,
 * `average`, `serializeGrades` and `deserializeGrades`.
 *
 * `std::map` keeps its entries ordered by key, so the map is modelled as the
 * sequence of its entries in ascending subject order; that order is what
 * `serializeGrades` walks.
 */
module Grades {
  import opened Options
  import opened Numbers
  import opened Text

  /** A grade; the source stores a `double` (see README, "Left out"). */
  type Grade = int

  datatype Entry = Entry(subject: string, grade: Grade)

  /** Strictly ascending subjects: at most one entry per subject, in key order. */
  predicate Ordered(es: seq<Entry>) {
    forall i, j :: 0 <= i < j < |es| ==> Before(es, i, j)
  }

  /** Entry `i` comes strictly before entry `j` in key order. */
  predicate Before(es: seq<Entry>, i: int, j: int)
    requires 0 <= i < |es| && 0 <= j < |es|
  {
    Less(es[i].subject, es[j].subject)
  }

  type GradeMap = es: seq<Entry> | Ordered(es) witness []

  /** The grade stored for `k`, if any. */
  function Lookup(g: seq<Entry>, k: string): Option<Grade>
    decreases |g|
  {
    if g == [] then None
    else if g[0].subject == k then Some(g[0].grade)
    else Lookup(g[1..], k)
  }

  /** `x` precedes every subject of `g`. */
  predicate Above(x: string, g: seq<Entry>) {
    forall i :: 0 <= i < |g| ==> Less(x, g[i].subject)
  }

  /** Every subject of `g` precedes `x`. */
  predicate Below(g: seq<Entry>, x: string) {
    forall i :: 0 <= i < |g| ==> Less(g[i].subject, x)
  }

  /** An entry placed before an ordered map whose subjects all follow it keeps it ordered. */
  lemma ConsOrdered(e: Entry, g: GradeMap)
    requires Above(e.subject, g)
    ensures Ordered([e] + g)
  {
    var r := [e] + g;
    forall i, j | 0 <= i < j < |r| ensures Before(r, i, j) {
      assert r[j] == g[j - 1];
      if i > 0 {
        assert r[i] == g[i - 1];
        assert Before(g, i - 1, j - 1);
      }
    }
  }

  lemma TailOrdered(g: GradeMap)
    requires g != []
    ensures Ordered(g[1..])
    ensures Above(g[0].subject, g[1..])
  {
    var t := g[1..];
    forall i, j | 0 <= i < j < |t| ensures Before(t, i, j) {
      assert t[i] == g[i + 1] && t[j] == g[j + 1];
      assert Before(g, i + 1, j + 1);
    }
    forall i | 0 <= i < |t| ensures Less(g[0].subject, t[i].subject) {
      assert t[i] == g[i + 1];
      assert Before(g, 0, i + 1);
    }
  }

  lemma PrefixOrdered(g: GradeMap, n: nat)
    requires n < |g|
    ensures Ordered(g[..n])
    ensures Below(g[..n], g[n].subject)
  {
    var p := g[..n];
    forall i, j | 0 <= i < j < |p| ensures Before(p, i, j) {
      assert p[i] == g[i] && p[j] == g[j];
      assert Before(g, i, j);
    }
    forall i | 0 <= i < |p| ensures Less(p[i].subject, g[n].subject) {
      assert p[i] == g[i];
      assert Before(g, i, n);
    }
  }

  /**
   * `addGrade` (`grades[subject] = grade`): after it `k` maps to `v`, every other
   * subject keeps its grade, and the key order is kept.
   */
  function Insert(g: GradeMap, k: string, v: Grade): (r: GradeMap)
    ensures Lookup(r, k) == Some(v)
    ensures forall k' :: k' != k ==> Lookup(r, k') == Lookup(g, k')
    ensures forall x :: Above(x, g) && Less(x, k) ==> Above(x, r)
    decreases |g|
  {
    if g == [] then [Entry(k, v)]
    else
      TailOrdered(g);
      var rest: GradeMap := g[1..];
      if g[0].subject == k then
        ConsOrdered(Entry(k, v), rest);
        [Entry(k, v)] + rest
      else if Less(k, g[0].subject) then
        assert Above(k, g) by {
          forall i | 1 <= i < |g| ensures Less(k, g[i].subject) {
            assert rest[i - 1] == g[i];
            LessTransitive(k, g[0].subject, g[i].subject);
          }
        }
        ConsOrdered(Entry(k, v), g);
        [Entry(k, v)] + g
      else
        LessTotal(k, g[0].subject);
        var tail := Insert(rest, k, v);
        assert Above(g[0].subject, tail);
        ConsOrdered(g[0], tail);
        AboveCons(g[0], rest, tail, k);
        [g[0]] + tail
  }

  /** What `Insert` promises about subjects above the map, one level up. */
  lemma AboveCons(e: Entry, rest: seq<Entry>, tail: seq<Entry>, k: string)
    requires forall x :: Above(x, rest) && Less(x, k) ==> Above(x, tail)
    ensures forall x :: Above(x, [e] + rest) && Less(x, k) ==> Above(x, [e] + tail)
  {
    forall x | Above(x, [e] + rest) && Less(x, k) ensures Above(x, [e] + tail) {
      assert Above(x, rest) by {
        forall i | 0 <= i < |rest| ensures Less(x, rest[i].subject) {
          assert ([e] + rest)[i + 1] == rest[i];
        }
      }
      assert ([e] + rest)[0] == e;
    }
  }

  /** Inserting a subject that follows every present one appends it. */
  lemma {:induction false} InsertLast(g: GradeMap, k: string, v: Grade)
    requires Below(g, k)
    ensures Insert(g, k, v) == g + [Entry(k, v)]
    decreases |g|
  {
    if g != [] {
      LessIrreflexive(k);
      LessAsymmetric(g[0].subject, k);
      TailOrdered(g);
      var rest: GradeMap := g[1..];
      assert Below(rest, k) by {
        forall i | 0 <= i < |rest| ensures Less(rest[i].subject, k) {
          assert rest[i] == g[i + 1];
        }
      }
      InsertLast(rest, k, v);
      SeqConsFirst(g);
    }
  }

  /** A subject preceding every key of the map is not in it. */
  lemma {:induction false} LookupAbove(x: string, g: seq<Entry>)
    requires Above(x, g)
    ensures Lookup(g, x) == None
    decreases |g|
  {
    if g != [] {
      LessIrreflexive(x);
      assert Above(x, g[1..]) by {
        forall i | 0 <= i < |g[1..]| ensures Less(x, g[1..][i].subject) {
          assert g[1..][i] == g[i + 1];
        }
      }
      LookupAbove(x, g[1..]);
    }
  }

  /** Two maps that agree on every subject are the same map. */
  lemma {:induction false} LookupExtensional(a: GradeMap, b: GradeMap)
    requires forall k :: Lookup(a, k) == Lookup(b, k)
    ensures a == b
    decreases |a|
  {
    if a == [] || b == [] {
      if a != [] {
        assert Lookup(a, a[0].subject) != Lookup(b, a[0].subject);
      } else if b != [] {
        assert Lookup(a, b[0].subject) != Lookup(b, b[0].subject);
      }
    } else {
      TailOrdered(a);
      TailOrdered(b);
      var x, y := a[0].subject, b[0].subject;
      if x != y {
        LessTotal(x, y);
        if Less(x, y) {
          assert Above(x, b) by {
            forall i | 0 <= i < |b| ensures Less(x, b[i].subject) {
              if i > 0 {
                assert b[1..][i - 1] == b[i];
                LessTransitive(x, y, b[i].subject);
              }
            }
          }
          LookupAbove(x, b);
          assert false;
        } else {
          assert Above(y, a) by {
            forall i | 0 <= i < |a| ensures Less(y, a[i].subject) {
              if i > 0 {
                assert a[1..][i - 1] == a[i];
                LessTransitive(y, x, a[i].subject);
              }
            }
          }
          LookupAbove(y, a);
          assert false;
        }
      } else {
        assert Lookup(a, x) == Some(a[0].grade) && Lookup(b, x) == Some(b[0].grade);
        var ta: GradeMap, tb: GradeMap := a[1..], b[1..];
        forall k ensures Lookup(ta, k) == Lookup(tb, k) {
          if k == x {
            LookupAbove(x, ta);
            LookupAbove(x, tb);
          } else {
            assert Lookup(a, k) == Lookup(ta, k) && Lookup(b, k) == Lookup(tb, k);
          }
        }
        LookupExtensional(ta, tb);
        SeqConsFirst(a);
        SeqConsFirst(b);
      }
    }
  }

  /** `addGrade` twice for one subject: the second grade replaces the first. */
  lemma InsertOverwrites(g: GradeMap, k: string, a: Grade, b: Grade)
    ensures Insert(Insert(g, k, a), k, b) == Insert(g, k, b)
  {
    LookupExtensional(Insert(Insert(g, k, a), k, b), Insert(g, k, b));
  }

  /** `addGrade` for two different subjects gives the same map in either order. */
  lemma InsertCommutes(g: GradeMap, k1: string, v1: Grade, k2: string, v2: Grade)
    requires k1 != k2
    ensures Insert(Insert(g, k1, v1), k2, v2) == Insert(Insert(g, k2, v2), k1, v1)
  {
    LookupExtensional(Insert(Insert(g, k1, v1), k2, v2), Insert(Insert(g, k2, v2), k1, v1));
  }

  // ---------- average ----------

  function Sum(g: seq<Entry>): int
    decreases |g|
  {
    if g == [] then 0 else Sum(g[..|g| - 1]) + g[|g| - 1].grade
  }

  /** The mean the source computes; 0.0 for a student without grades. */
  function Mean(g: seq<Entry>): (r: real)
    ensures g == [] ==> r == 0.0
  {
    if g == [] then 0.0 else Sum(g) as real / |g| as real
  }

  /** `average`: sums the grades in key order and divides by their number. */
  method Average(g: GradeMap) returns (avg: real)
    ensures avg == Mean(g)
  {
    if |g| == 0 {
      return 0.0;
    }
    var sum := 0;
    var i := 0;
    while i < |g|
      invariant 0 <= i <= |g|
      invariant sum == Sum(g[..i])
    {
      assert g[..i + 1][..i] == g[..i];
      sum := sum + g[i].grade;
      i := i + 1;
    }
    assert g[..|g|] == g;
    avg := sum as real / |g| as real;
  }

  lemma {:induction false} SumBounds(g: seq<Entry>, lo: int, hi: int)
    requires forall i :: 0 <= i < |g| ==> lo <= g[i].grade <= hi
    ensures lo * |g| <= Sum(g) <= hi * |g|
    decreases |g|
  {
    if g != [] {
      var p := g[..|g| - 1];
      assert forall i :: 0 <= i < |p| ==> p[i] == g[i];
      SumBounds(p, lo, hi);
      assert lo * |g| == lo * |p| + lo;
      assert hi * |g| == hi * |p| + hi;
    }
  }

  lemma RealOfProduct(a: int, b: int)
    ensures (a * b) as real == a as real * b as real
  {
  }

  lemma DivideBounds(s: real, n: real, lo: real, hi: real)
    requires n > 0.0 && lo * n <= s <= hi * n
    ensures lo <= s / n <= hi
  {
    var m := s / n;
    assert m * n == s;
  }

  /** The mean lies between the smallest and the largest grade. */
  lemma MeanBounds(g: seq<Entry>, lo: int, hi: int)
    requires g != []
    requires forall i :: 0 <= i < |g| ==> lo <= g[i].grade <= hi
    ensures lo as real <= Mean(g) <= hi as real
  {
    SumBounds(g, lo, hi);
    var n := |g|;
    RealOfProduct(lo, n);
    RealOfProduct(hi, n);
    DivideBounds(Sum(g) as real, n as real, lo as real, hi as real);
  }

  /** Two grades 80 and 90 average to 85. */
  lemma MeanExample()
    ensures Mean([Entry("math", 80), Entry("sci", 90)]) == 85.0
  {
    var g := [Entry("math", 80), Entry("sci", 90)];
    assert g[..1][..0] == [];
    assert g[..1] == [Entry("math", 80)];
    assert Sum(g) == 170;
  }

  // ---------- serializeGrades ----------

  /** One `subject:grade` entry as `serializeGrades` writes it. */
  function EntryText(e: Entry): string {
    e.subject + ":" + RenderInt(e.grade)
  }

  function EntryTexts(g: seq<Entry>): (ts: seq<string>)
    ensures |ts| == |g|
    ensures forall i :: 0 <= i < |g| ==> ts[i] == EntryText(g[i])
  {
    seq(|g|, i requires 0 <= i < |g| => EntryText(g[i]))
  }

  /** `serializeGrades`: the entries, in key order, joined by `,`. */
  function Serialize(g: GradeMap): string {
    Join(EntryTexts(g), ',')
  }

  /** `serializeGrades` writes "" exactly for a map without grades. */
  lemma SerializeEmpty(g: GradeMap)
    ensures Serialize(g) == "" <==> g == []
  {
    if g != [] {
      var ts := EntryTexts(g);
      assert ts[0] == EntryText(g[0]);
      assert |EntryText(g[0])| > 0;
      assert Join(ts, ',')[..|ts[0]|] == ts[0];
    }
  }

  /** Splitting an entry on `:` gives its subject and its grade text. */
  lemma EntryTextSplit(e: Entry)
    requires ':' !in e.subject
    ensures Split(EntryText(e), ':') == [e.subject, RenderInt(e.grade)]
  {
    var t := RenderInt(e.grade);
    RenderIntAvoids(e.grade, ':');
    SplitCons(e.subject, ':', t);
    SplitSingle(t, ':');
  }

  /**
   * Splitting the serialized text on `,` gives one `subject:grade` entry per
   * subject, in ascending subject order, provided no subject holds a `,`.
   */
  lemma SerializePieces(g: GradeMap)
    requires forall i :: 0 <= i < |g| ==> ',' !in g[i].subject
    ensures Split(Serialize(g), ',') == EntryTexts(g)
  {
    var ts := EntryTexts(g);
    forall i | 0 <= i < |ts| ensures ',' !in ts[i] {
      RenderIntAvoids(g[i].grade, ',');
    }
    SplitJoin(ts, ',');
  }

  // ---------- deserializeGrades ----------

  /**
   * What one `,`-separated item contributes: it must split on `:` into exactly two
   * pieces whose second, trimmed, parses as a number; the subject is stored trimmed.
   */
  function ItemGrade(item: string): Option<Entry> {
    var pair := Split(item, ':');
    if |pair| != 2 then None
    else
      match StoD(Trim(pair[1]))
      case None => None
      case Some(v) => Some(Entry(Trim(pair[0]), v))
  }

  /** What each item contributes, in order. */
  function Parsed(items: seq<string>): (outs: seq<Option<Entry>>)
    ensures |outs| == |items|
    ensures forall i :: 0 <= i < |items| ==> outs[i] == ItemGrade(items[i])
  {
    seq(|items|, i requires 0 <= i < |items| => ItemGrade(items[i]))
  }

  /** The outcome stores a grade under subject `k`. */
  predicate Sets(o: Option<Entry>, k: string) {
    o.Some? && o.value.subject == k
  }

  /** The item is accepted and stores a grade under subject `k`. */
  predicate Names(item: string, k: string) {
    Sets(ItemGrade(item), k)
  }

  /** One outcome applied to the map: an accepted item sets its subject's grade. */
  function Apply(g: GradeMap, o: Option<Entry>): GradeMap {
    match o
    case None => g
    case Some(e) => Insert(g, e.subject, e.grade)
  }

  /** The map built from the outcomes in order, later ones overwriting earlier ones. */
  function Collect(outs: seq<Option<Entry>>): GradeMap
    decreases |outs|
  {
    if outs == [] then [] else Apply(Collect(outs[..|outs| - 1]), outs[|outs| - 1])
  }

  /** The map built from the `,`-items, starting from the empty map. */
  function Absorb(items: seq<string>): GradeMap {
    Collect(Parsed(items))
  }

  /** Absorbing one more item of a list. */
  lemma AbsorbStep(items: seq<string>, i: nat)
    requires i < |items|
    ensures Absorb(items[..i + 1]) == Apply(Absorb(items[..i]), ItemGrade(items[i]))
  {
    var outs := Parsed(items[..i + 1]);
    assert outs[..i] == Parsed(items[..i]);
  }

  /** `deserializeGrades`: start from an empty map and absorb the `,`-items. */
  function Deserialize(s: string): GradeMap {
    if s == [] then [] else Absorb(Split(s, ','))
  }

  /** A subject is absent exactly when no outcome sets it. */
  lemma {:induction false} CollectAbsent(outs: seq<Option<Entry>>, k: string)
    ensures Lookup(Collect(outs), k) == None <==> forall i :: 0 <= i < |outs| ==> !Sets(outs[i], k)
    decreases |outs|
  {
    if outs != [] {
      var n := |outs| - 1;
      var p := outs[..n];
      CollectAbsent(p, k);
      assert forall i :: 0 <= i < n ==> p[i] == outs[i];
      assert Lookup(Collect(outs), k) == None <==> Lookup(Collect(p), k) == None && !Sets(outs[n], k);
    }
  }

  /** A subject is absent exactly when no accepted item names it. */
  lemma AbsorbAbsent(items: seq<string>, k: string)
    ensures Lookup(Absorb(items), k) == None <==> forall i :: 0 <= i < |items| ==> !Names(items[i], k)
  {
    CollectAbsent(Parsed(items), k);
  }

  /** The last outcome setting a subject decides its grade. */
  lemma {:induction false} CollectLastWins(outs: seq<Option<Entry>>, i: nat, e: Entry)
    requires i < |outs| && outs[i] == Some(e)
    requires forall j :: i < j < |outs| ==> !Sets(outs[j], e.subject)
    ensures Lookup(Collect(outs), e.subject) == Some(e.grade)
    decreases |outs|
  {
    var n := |outs| - 1;
    if i < n {
      var p := outs[..n];
      assert forall j :: i <= j < n ==> p[j] == outs[j];
      CollectLastWins(p, i, e);
    }
  }

  /** The last accepted item naming a subject decides its grade. */
  lemma AbsorbLastWins(items: seq<string>, i: nat, e: Entry)
    requires i < |items| && ItemGrade(items[i]) == Some(e)
    requires forall j :: i < j < |items| ==> !Names(items[j], e.subject)
    ensures Lookup(Absorb(items), e.subject) == Some(e.grade)
  {
    CollectLastWins(Parsed(items), i, e);
  }

  /** Every subject `deserializeGrades` stores is trimmed. */
  lemma DeserializeTrimmed(s: string, k: string)
    requires Lookup(Deserialize(s), k).Some?
    ensures Trim(k) == k
  {
    if s != [] {
      var items := Split(s, ',');
      AbsorbAbsent(items, k);
      var i :| 0 <= i < |items| && Names(items[i], k);
      TrimIdempotent(Split(items[i], ':')[0]);
    }
  }

  /** The empty text gives the empty map. */
  lemma DeserializeEmpty()
    ensures Deserialize("") == []
  {
  }

  /** A trailing `:` after the grade is accepted: it yields no third piece. */
  lemma ItemTrailingColon(k: string, v: Grade)
    requires ':' !in k
    ensures ItemGrade(k + ":" + RenderInt(v) + ":") == ItemGrade(k + ":" + RenderInt(v))
  {
    var t := RenderInt(v);
    RenderIntAvoids(v, ':');
    SplitPairTerminated(k, t, ':');
    EntryTextSplit(Entry(k, v));
  }

  /** An item with a subject and no grade text splits into one piece and is dropped. */
  lemma ItemMissingGrade(k: string)
    requires ':' !in k
    ensures ItemGrade(k + ":") == None
  {
    SplitCons(k, ':', "");
    assert k + ":" == k + [':'] + "";
  }

  /** A subject that survives the round trip: no `,` or `:`, no surrounding blanks. */
  predicate CleanSubject(k: string) {
    ',' !in k && ':' !in k && Unpadded(k)
  }

  /** An entry read back from its own text is the same entry. */
  lemma ItemGradeOfEntry(e: Entry)
    requires CleanSubject(e.subject)
    ensures ItemGrade(EntryText(e)) == Some(e)
  {
    EntryTextSplit(e);
    TrimUnpadded(e.subject);
    var t := RenderInt(e.grade);
    assert Unpadded(t) by {
      assert IsDigit(t[0]) || t[0] == '-';
    }
    TrimUnpadded(t);
    ParseRender(e.grade);
  }

  /** Every outcome accepted, one per entry. */
  function Accepted(g: seq<Entry>): (outs: seq<Option<Entry>>)
    ensures |outs| == |g|
    ensures forall i :: 0 <= i < |g| ==> outs[i] == Some(g[i])
  {
    seq(|g|, i requires 0 <= i < |g| => Some(g[i]))
  }

  /** Reading the texts of clean entries accepts each of them. */
  lemma ParsedEntryTexts(g: seq<Entry>)
    requires forall i :: 0 <= i < |g| ==> CleanSubject(g[i].subject)
    ensures Parsed(EntryTexts(g)) == Accepted(g)
  {
    forall i | 0 <= i < |g| ensures Parsed(EntryTexts(g))[i] == Some(g[i]) {
      ItemGradeOfEntry(g[i]);
    }
  }

  /** Setting the entries of a map one by one, in key order, rebuilds it. */
  lemma {:induction false} CollectAccepted(g: GradeMap)
    ensures Collect(Accepted(g)) == g
    decreases |g|
  {
    if g != [] {
      var n := |g| - 1;
      var e := g[n];
      PrefixOrdered(g, n);
      var p: GradeMap := g[..n];
      var outs := Accepted(g);
      assert outs[..n] == Accepted(p);
      assert Collect(outs) == Insert(Collect(Accepted(p)), e.subject, e.grade);
      CollectAccepted(p);
      InsertLast(p, e.subject, e.grade);
      SeqSnocLast(g);
    }
  }

  /**
   * The grade round trip: reading back what `serializeGrades` wrote restores the
   * map, provided no subject holds `,` or `:` or has surrounding blanks.
   */
  lemma DeserializeSerialize(g: GradeMap)
    requires forall i :: 0 <= i < |g| ==> CleanSubject(g[i].subject)
    ensures Deserialize(Serialize(g)) == g
  {
    SerializeEmpty(g);
    if g != [] {
      SerializePieces(g);
      ParsedEntryTexts(g);
      CollectAccepted(g);
    }
  }

  /** The texts of a prefix grow by one entry text per entry. */
  lemma EntryTextsSnoc(g: seq<Entry>, i: nat)
    requires i < |g|
    ensures EntryTexts(g[..i + 1]) == EntryTexts(g[..i]) + [EntryText(g[i])]
  {
  }

  /** `serializeGrades`: the loop with its `first` flag writing to a string stream. */
  method SerializeGrades(g: GradeMap) returns (out: string)
    ensures out == Serialize(g)
  {
    out := "";
    var first := true;
    var i := 0;
    while i < |g|
      invariant 0 <= i <= |g|
      invariant first <==> i == 0
      invariant out == Join(EntryTexts(g[..i]), ',')
    {
      ghost var done := EntryTexts(g[..i]);
      EntryTextsSnoc(g, i);
      var text := g[i].subject + ":" + RenderInt(g[i].grade);
      if !first {
        out := out + ",";
        JoinSnoc(done, text, ',');
        assert out + text == Join(done + [text], ',');
      } else {
        assert done + [text] == [text];
      }
      out := out + text;
      first := false;
      i := i + 1;
    }
    assert g[..|g|] == g;
  }

  /**
   * `deserializeGrades`: clear the map, then absorb the items one by one; the
   * result does not depend on what the map held before.
   */
  method DeserializeGrades(s: string) returns (g: GradeMap)
    ensures g == Deserialize(s)
  {
    g := [];
    if s == [] {
      return;
    }
    var items := SplitByGetline(s, ',');
    var i := 0;
    while i < |items|
      invariant 0 <= i <= |items|
      invariant g == Absorb(items[..i])
    {
      AbsorbStep(items, i);
      ghost var before := g;
      var pair := SplitByGetline(items[i], ':');
      if |pair| == 2 {
        var subject := Trim(pair[0]);
        var parsed := StoD(Trim(pair[1]));
        if parsed.Some? {
          g := Insert(g, subject, parsed.value);
        }
      }
      assert g == Apply(before, ItemGrade(items[i]));
      i := i + 1;
    }
    assert items[..|items|] == items;
  }
}
