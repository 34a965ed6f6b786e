/** rnd.h: the seed table that every run starts from. */
module SeedTable {
  import opened PowerCertificates
  import opened SpeedSeed
  import opened Streams
  import opened Skipping

  // for each stream its table, its seed, no draws so far, and its boundary
  const SEEDS_0: seq<Stream> := [
    Stream(PART, 1, 0, 1), Stream(PART, 46831694, 0, 1),
    Stream(PART, 1841581359, 0, 1), Stream(PART, 1193163244, 0, 1),
    Stream(PART, 727633698, 0, 1), Stream(NONE, 933588178, 0, 1),
    Stream(PART, 804159733, 0, 81), Stream(PSUPP, 1671059989, 0, 4)
  ]

  const SEEDS_8: seq<Stream> := [
    Stream(PSUPP, 1051288424, 0, 4), Stream(PSUPP, 1961692154, 0, 2160),
    Stream(ORDER, 1227283347, 0, 1), Stream(ORDER, 1171034773, 0, 1),
    Stream(ORDER, 276090261, 0, 216), Stream(ORDER, 1066728069, 0, 1),
    Stream(LINE, 209208115, 0, 7), Stream(LINE, 554590007, 0, 7)
  ]

  const SEEDS_16: seq<Stream> := [
    Stream(LINE, 721958466, 0, 7), Stream(LINE, 1371272478, 0, 7),
    Stream(LINE, 675466456, 0, 7), Stream(LINE, 1808217256, 0, 7),
    Stream(LINE, 2095021727, 0, 7), Stream(LINE, 1769349045, 0, 7),
    Stream(LINE, 904914315, 0, 7), Stream(LINE, 373135028, 0, 7)
  ]

  const SEEDS_24: seq<Stream> := [
    Stream(LINE, 717419739, 0, 7), Stream(LINE, 1095462486, 0, 945),
    Stream(CUST, 881155353, 0, 9), Stream(CUST, 1489529863, 0, 1),
    Stream(CUST, 1521138112, 0, 3), Stream(CUST, 298370230, 0, 1),
    Stream(CUST, 1140279430, 0, 1), Stream(CUST, 1335826707, 0, 324)
  ]

  const SEEDS_32: seq<Stream> := [
    Stream(SUPP, 706178559, 0, 9), Stream(SUPP, 110356601, 0, 1),
    Stream(SUPP, 884434366, 0, 3), Stream(SUPP, 962338209, 0, 1),
    Stream(SUPP, 1341315363, 0, 297), Stream(PART, 709314158, 0, 92),
    Stream(ORDER, 591449447, 0, 1), Stream(LINE, 431918286, 0, 1)
  ]

  const SEEDS_40: seq<Stream> := [
    Stream(ORDER, 851767375, 0, 1), Stream(NATION, 606179079, 0, 432),
    Stream(REGION, 1500869201, 0, 432), Stream(ORDER, 1434868289, 0, 1),
    Stream(SUPP, 263032577, 0, 1), Stream(SUPP, 753643799, 0, 1),
    Stream(SUPP, 202794285, 0, 1), Stream(SUPP, 715851524, 0, 1)
  ]

  const SEEDS: seq<Stream> := SEEDS_0 + SEEDS_8 + SEEDS_16 + SEEDS_24 + SEEDS_32 + SEEDS_40

  /** Rows from k on that have the table and the boundary of their stream. */
  ghost predicate Rows(part: seq<Stream>, k: nat, n: nat)
  {
    |part| == n && forall i :: 0 <= i < |part| ==>
      && HoldsSeed(part[i]) && part[i].usage == 0
      && part[i].table == TableOf(k + i) && part[i].boundary == BoundaryOf(k + i)
  }

  lemma RowsOfTable()
    ensures Rows(SEEDS_0, 0, 8) && Rows(SEEDS_8, 8, 8) && Rows(SEEDS_16, 16, 8)
    ensures Rows(SEEDS_24, 24, 8) && Rows(SEEDS_32, 32, 8) && Rows(SEEDS_40, 40, 8)
  {
  }

  lemma RowsTogether(a: seq<Stream>, b: seq<Stream>, k: nat, m: nat, n: nat)
    requires Rows(a, k, m) && Rows(b, k + m, n)
    ensures Rows(a + b, k, m + n)
  {
    hide TableOf, BoundaryOf;
  }

  lemma SixParts(a: seq<Stream>, b: seq<Stream>, c: seq<Stream>, d: seq<Stream>, e: seq<Stream>, f: seq<Stream>)
    requires Rows(a, 0, 8) && Rows(b, 8, 8) && Rows(c, 16, 8) && Rows(d, 24, 8) && Rows(e, 32, 8) && Rows(f, 40, 8)
    ensures Rows(a + b + c + d + e + f, 0, 48)
  {
    hide Rows;
    RowsTogether(a, b, 0, 8, 8);
    RowsTogether(a + b, c, 0, 16, 8);
    RowsTogether(a + b + c, d, 0, 24, 8);
    RowsTogether(a + b + c + d, e, 0, 32, 8);
    RowsTogether(a + b + c + d + e, f, 0, 40, 8);
  }

  /** It has the layout that the theorems about runs ask for. */
  lemma SeedsHaveLayout()
    ensures HasLayout(SEEDS)
    ensures |SEEDS| == 48 && forall i :: 0 <= i < |SEEDS| ==>
      SEEDS[i].table == TableOf(i) && SEEDS[i].boundary == BoundaryOf(i) && SEEDS[i].usage == 0
  {
    RowsOfTable();
    SixParts(SEEDS_0, SEEDS_8, SEEDS_16, SEEDS_24, SEEDS_32, SEEDS_40);
    RowsAreLayout(SEEDS);
  }

  lemma RowsAreLayout(s: seq<Stream>)
    requires Rows(s, 0, 48)
    ensures HasLayout(s)
    ensures |s| == 48 && forall i :: 0 <= i < |s| ==>
      s[i].table == TableOf(i) && s[i].boundary == BoundaryOf(i) && s[i].usage == 0
  {
    hide TableOf, BoundaryOf;
  }
}
