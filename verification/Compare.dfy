/** The cross-file reconciliation of Compare_wip.py. Each uploaded job
    overview becomes an index from stripped Equipment Code to the
    (Equipment Name, Job Title) pairs of its rows. The codes of every upload
    form one sorted master list. Each master code is matched by literal
    prefix against every file's codes, giving one indicator per file, the
    union of the matched names and a Mismatch flag. */
module Compare {
  import opened Seqs
  import opened Text

  /** One spreadsheet row: column name to the cell's text. */
  type Row = map<string, string>

  const CodeColumn: string := "Equipment Code"
  const NameColumn: string := "Equipment Name"
  const JobCodeColumn: string := "Job Code"
  const TitleColumn: string := "Job Title"
  const Unknown: string := "Unknown"

  /** An (Equipment Name, Job Title) pair as stored in the index. */
  datatype Pair = Pair(name: string, title: string)

  datatype Upload = Upload(fileName: string, rows: seq<Row>)

  /** One value of `file_dicts`: the code -> pairs dict, its keys in insertion
      order (the order `items()` visits them), and the sorted code list. */
  datatype FileIndex = FileIndex(pairs: map<string, seq<Pair>>, codes: seq<string>, sortedCodes: seq<string>)

  /** One row of `result_df`: Equipment Code, Equipment Name, one indicator
      per file (in the order of the file columns), Mismatch. */
  datatype ResultRow = ResultRow(code: string, names: string, indicators: seq<string>, mismatch: string)

  /** Everything the script computes for one batch of uploads. */
  datatype Comparison = Comparison(
    duplicates: seq<seq<Row>>,
    master: seq<string>,
    fileNames: seq<string>,
    table: seq<ResultRow>,
    matched: map<(string, string), seq<Pair>>)

  // ---------------------------------------------------------------------
  // Duplicate rows of one upload (lines 21-24)

  function Cell(r: Row, column: string): Option<string>
  {
    if column in r then Some(r[column]) else None
  }

  /** The four columns that must all agree for two rows to be duplicates,
      compared as read, before any stripping. */
  function DuplicateKey(r: Row): (Option<string>, Option<string>, Option<string>, Option<string>)
  {
    (Cell(r, CodeColumn), Cell(r, NameColumn), Cell(r, JobCodeColumn), Cell(r, TitleColumn))
  }

  /** pandas raises a KeyError when a column of the subset is missing. */
  predicate HasDuplicateColumns(rows: seq<Row>)
  {
    forall i :: 0 <= i < |rows| ==>
      CodeColumn in rows[i] && NameColumn in rows[i] && JobCodeColumn in rows[i] && TitleColumn in rows[i]
  }

  /** `df[df.duplicated(subset=duplicate_columns, keep=False)]`. */
  function DuplicateRows(rows: seq<Row>): (dups: seq<Row>)
    requires HasDuplicateColumns(rows)
    ensures IsSubsequence(dups, rows)
    ensures forall i :: 0 <= i < |rows| ==>
              (rows[i] in dups <==>
               exists j :: 0 <= j < |rows| && j != i && DuplicateKey(rows[j]) == DuplicateKey(rows[i]))
    ensures forall r :: r in rows && r in dups ==> multiset(dups)[r] == multiset(rows)[r]
  {
    var dups := Duplicated(rows, DuplicateKey);
    assert forall i :: 0 <= i < |rows| ==>
             (rows[i] in dups <==>
              exists j :: 0 <= j < |rows| && j != i && DuplicateKey(rows[j]) == DuplicateKey(rows[i])) by {
      forall i | 0 <= i < |rows| {
        DuplicatedAt(rows, DuplicateKey, i);
      }
    }
    dups
  }

  // ---------------------------------------------------------------------
  // Per-file code index (lines 47-66)

  predicate HasCodes(rows: seq<Row>)
  {
    forall i :: 0 <= i < |rows| ==> CodeColumn in rows[i]
  }

  /** The Equipment Code after `astype(str).str.strip()` (line 47). */
  function CodeOf(r: Row): string
    requires CodeColumn in r
  {
    Strip(r[CodeColumn])
  }

  /** `str(row.get(column, "Unknown")).strip()`. The default is written
      already stripped; `UnknownIsStripped` shows that stripping it changes
      nothing. */
  function StrippedOrUnknown(r: Row, column: string): string
  {
    if column in r then Strip(r[column]) else Unknown
  }

  /** The pair a row contributes (lines 53-54). */
  function PairOf(r: Row): Pair
  {
    Pair(StrippedOrUnknown(r, NameColumn), StrippedOrUnknown(r, TitleColumn))
  }

  /** The stripped code column. */
  function Codes(rows: seq<Row>): (cs: seq<string>)
    requires HasCodes(rows)
    ensures |cs| == |rows|
    ensures forall i :: 0 <= i < |rows| ==> cs[i] == CodeOf(rows[i])
  {
    if rows == [] then [] else Codes(rows[..|rows| - 1]) + [CodeOf(rows[|rows| - 1])]
  }

  /** The keys of `eq_code_to_pairs` in insertion order. */
  function CodeOrder(rows: seq<Row>): seq<string>
    requires HasCodes(rows)
  {
    FirstSeen(Codes(rows))
  }

  /** `eq_code_to_pairs[c]`: the pairs of the rows whose stripped code is `c`,
      in row order; one per such row. */
  function PairsOfCode(rows: seq<Row>, c: string): seq<Pair>
    requires HasCodes(rows)
  {
    if rows == [] then []
    else
      var last := rows[|rows| - 1];
      PairsOfCode(rows[..|rows| - 1], c) + (if CodeOf(last) == c then [PairOf(last)] else [])
  }

  /** A code's list holds one pair per row carrying that code. */
  lemma {:induction false} PairsOfCodeCount(rows: seq<Row>, c: string)
    requires HasCodes(rows)
    ensures |PairsOfCode(rows, c)| == multiset(Codes(rows))[c]
  {
    if rows != [] {
      var init := rows[..|rows| - 1];
      assert Codes(rows) == Codes(init) + [CodeOf(rows[|rows| - 1])];
      PairsOfCodeCount(init, c);
    }
  }

  function PairsByCode(rows: seq<Row>): (pairs: map<string, seq<Pair>>)
    requires HasCodes(rows)
    ensures pairs.Keys == Elems(Codes(rows))
  {
    map c | c in Codes(rows) :: PairsOfCode(rows, c)
  }

  predicate IndexWF(idx: FileIndex)
  {
    forall c :: c in idx.codes ==> c in idx.pairs
  }

  /** The entry the loop body of lines 49-66 stores for one upload. */
  function IndexOf(rows: seq<Row>): (idx: FileIndex)
    requires HasCodes(rows)
    ensures IndexWF(idx) && Distinct(idx.codes) && Elems(idx.codes) == idx.pairs.Keys
    ensures StrictlySorted(idx.sortedCodes) && Elems(idx.sortedCodes) == idx.pairs.Keys
    ensures forall c :: c in idx.pairs ==> |idx.pairs[c]| > 0
  {
    var codes := CodeOrder(rows);
    var pairs := PairsByCode(rows);
    assert forall c :: c in pairs ==> |pairs[c]| > 0 by {
      forall c | c in pairs
        ensures |pairs[c]| > 0
      {
        assert c in multiset(Codes(rows));
        PairsOfCodeCount(rows, c);
      }
    }
    FileIndex(pairs, codes, Sort(codes))
  }

  lemma PairsOfCodeSnoc(rows: seq<Row>, r: Row, c: string)
    requires HasCodes(rows) && CodeColumn in r
    ensures HasCodes(rows + [r])
    ensures PairsOfCode(rows + [r], c) == PairsOfCode(rows, c) + (if CodeOf(r) == c then [PairOf(r)] else [])
  {
    assert (rows + [r])[..|rows|] == rows;
  }

  lemma CodesSnoc(rows: seq<Row>, r: Row)
    requires HasCodes(rows) && CodeColumn in r
    ensures HasCodes(rows + [r])
    ensures Codes(rows + [r]) == Codes(rows) + [CodeOf(r)]
  {
    assert (rows + [r])[..|rows|] == rows;
  }

  lemma SeqSnoc<T>(xs: seq<T>, i: nat)
    requires i < |xs|
    ensures xs[..i + 1] == xs[..i] + [xs[i]]
  {
  }

  lemma MapsAgree<K, V>(a: map<K, V>, b: map<K, V>)
    requires a.Keys == b.Keys
    requires forall k :: k in a ==> a[k] == b[k]
    ensures a == b
  {
  }

  lemma PairsOfCodeSnocAt(rows: seq<Row>, r: Row, added: seq<Pair>, c: string)
    requires HasCodes(rows) && CodeColumn in r
    requires added == (if CodeOf(r) in PairsByCode(rows) then PairsByCode(rows)[CodeOf(r)] else []) + [PairOf(r)]
    requires HasCodes(rows + [r]) && c in PairsByCode(rows + [r])
    ensures c in PairsByCode(rows)[CodeOf(r) := added]
    ensures PairsByCode(rows + [r])[c] == PairsByCode(rows)[CodeOf(r) := added][c]
  {
    CodesSnoc(rows, r);
    PairsOfCodeSnoc(rows, r, c);
    assert c in Codes(rows) + [CodeOf(r)];
    if c == CodeOf(r) && c !in PairsByCode(rows) {
      assert multiset(Codes(rows))[c] == 0;
      PairsOfCodeCount(rows, c);
    }
  }

  lemma PairsByCodeKeysSnoc(rows: seq<Row>, r: Row)
    requires HasCodes(rows) && CodeColumn in r
    ensures HasCodes(rows + [r])
    ensures PairsByCode(rows + [r]).Keys == PairsByCode(rows).Keys + {CodeOf(r)}
  {
    CodesSnoc(rows, r);
    assert Elems(Codes(rows + [r])) == Elems(Codes(rows)) + {CodeOf(r)};
  }

  /** The value of every code after one more row. */
  lemma PairsOfCodesSnoc(rows: seq<Row>, r: Row, added: seq<Pair>)
    requires HasCodes(rows) && CodeColumn in r
    requires added == (if CodeOf(r) in PairsByCode(rows) then PairsByCode(rows)[CodeOf(r)] else []) + [PairOf(r)]
    ensures HasCodes(rows + [r])
    ensures forall c :: c in PairsByCode(rows + [r]) ==>
              PairsByCode(rows + [r])[c] == PairsByCode(rows)[CodeOf(r) := added][c]
  {
    CodesSnoc(rows, r);
    forall c | c in PairsByCode(rows + [r])
      ensures PairsByCode(rows + [r])[c] == PairsByCode(rows)[CodeOf(r) := added][c]
    {
      PairsOfCodeSnocAt(rows, r, added, c);
    }
  }

  /** One more row appends its pair to its code's list. */
  lemma PairsByCodeSnoc(rows: seq<Row>, r: Row)
    requires HasCodes(rows) && CodeColumn in r
    ensures HasCodes(rows + [r])
    ensures CodeOf(r) in PairsByCode(rows) ==>
              PairsByCode(rows + [r]) == PairsByCode(rows)[CodeOf(r) := PairsByCode(rows)[CodeOf(r)] + [PairOf(r)]]
    ensures CodeOf(r) !in PairsByCode(rows) ==>
              PairsByCode(rows + [r]) == PairsByCode(rows)[CodeOf(r) := [PairOf(r)]]
  {
    var before := PairsByCode(rows);
    var code := CodeOf(r);
    var added := (if code in before then before[code] else []) + [PairOf(r)];
    PairsOfCodesSnoc(rows, r, added);
    PairsByCodeKeysSnoc(rows, r);
    MapsAgree(PairsByCode(rows + [r]), before[code := added]);
    if code !in before {
      assert added == [PairOf(r)];
    }
  }

  /** One more row puts its code at the end of the key order when it is new. */
  lemma CodeOrderSnoc(rows: seq<Row>, r: Row)
    requires HasCodes(rows) && CodeColumn in r
    ensures HasCodes(rows + [r])
    ensures CodeOrder(rows + [r]) ==
            if CodeOf(r) in PairsByCode(rows) then CodeOrder(rows) else CodeOrder(rows) + [CodeOf(r)]
  {
    CodesSnoc(rows, r);
    var cs := Codes(rows + [r]);
    assert cs[..|rows|] == Codes(rows);
    assert CodeOf(r) in Elems(FirstSeen(Codes(rows))) <==> CodeOf(r) in Elems(Codes(rows));
  }

  /** The loop of lines 49-57: `eq_code_to_pairs.setdefault(code, []).append(pair)`
      for every row in turn. */
  method BuildCodeIndex(rows: seq<Row>) returns (pairs: map<string, seq<Pair>>, codes: seq<string>)
    requires HasCodes(rows)
    ensures pairs == PairsByCode(rows)
    ensures codes == CodeOrder(rows)
  {
    pairs, codes := map[], [];
    assert rows[..0] == [];
    MapsAgree(pairs, PairsByCode(rows[..0]));
    for i := 0 to |rows|
      invariant pairs == PairsByCode(rows[..i])
      invariant codes == CodeOrder(rows[..i])
    {
      var code, pair := CodeOf(rows[i]), PairOf(rows[i]);
      SeqSnoc(rows, i);
      PairsByCodeSnoc(rows[..i], rows[i]);
      CodeOrderSnoc(rows[..i], rows[i]);
      if code in pairs {
        pairs := pairs[code := pairs[code] + [pair]];
      } else {
        pairs := pairs[code := [pair]];
        codes := codes + [code];
      }
    }
    assert rows[..|rows|] == rows;
  }

  /** Sum of the lengths of the pair lists of `codes`. */
  function TotalPairs(codes: seq<string>, pairs: map<string, seq<Pair>>): nat
    requires forall c :: c in codes ==> c in pairs
  {
    if codes == [] then 0 else TotalPairs(codes[..|codes| - 1], pairs) + |pairs[codes[|codes| - 1]]|
  }

  lemma {:induction false} TotalPairsIsSumCounts(rows: seq<Row>, ks: seq<string>)
    requires HasCodes(rows)
    requires forall c :: c in ks ==> c in PairsByCode(rows)
    ensures TotalPairs(ks, PairsByCode(rows)) == SumCounts(ks, Codes(rows))
  {
    if ks != [] {
      TotalPairsIsSumCounts(rows, ks[..|ks| - 1]);
      PairsOfCodeCount(rows, ks[|ks| - 1]);
    }
  }

  /** The index partitions the upload's rows: every row lands in exactly one
      pair list, so the list lengths add up to the row count. */
  lemma IndexPartitionsRows(rows: seq<Row>)
    requires HasCodes(rows)
    ensures TotalPairs(IndexOf(rows).codes, IndexOf(rows).pairs) == |rows|
  {
    TotalPairsIsSumCounts(rows, CodeOrder(rows));
    FirstSeenCountsSum(Codes(rows));
  }

  lemma UnknownIsStripped()
    ensures Strip(Unknown) == Unknown
  {
    assert !IsSpace('U') && !IsSpace('n');
    assert TrimStart(Unknown) == Unknown;
  }

  /** Codes and pairs are indexed stripped, and a missing name or title
      column reads as "Unknown". */
  lemma StrippedCodesAndUnknownDefaults(r: Row)
    requires CodeColumn in r
    ensures CodeOf(r) == Strip(r[CodeColumn])
    ensures CodeOf(r) == [] || (!IsSpace(CodeOf(r)[0]) && !IsSpace(CodeOf(r)[|CodeOf(r)| - 1]))
    ensures PairOf(r).name == Strip(if NameColumn in r then r[NameColumn] else Unknown)
    ensures PairOf(r).title == Strip(if TitleColumn in r then r[TitleColumn] else Unknown)
    ensures NameColumn !in r ==> PairOf(r).name == "Unknown"
  {
    UnknownIsStripped();
    StripRemovesOuterSpace(r[CodeColumn]);
  }

  // ---------------------------------------------------------------------
  // All uploads (lines 41, 45-69)

  predicate AllHaveCodes(uploads: seq<Upload>)
  {
    forall k :: 0 <= k < |uploads| ==> HasCodes(uploads[k].rows)
  }

  /** The file name with its extension cut off, for every upload. */
  function Stems(uploads: seq<Upload>): (ss: seq<string>)
    ensures |ss| == |uploads|
    ensures forall k :: 0 <= k < |uploads| ==> ss[k] == Stem(uploads[k].fileName)
  {
    if uploads == [] then [] else Stems(uploads[..|uploads| - 1]) + [Stem(uploads[|uploads| - 1].fileName)]
  }

  /** `all_eq_codes` after the loop: every stripped code of every upload,
      whatever its stem. */
  function AllCodes(uploads: seq<Upload>): (all: set<string>)
    requires AllHaveCodes(uploads)
    ensures forall c :: c in all <==> exists k :: 0 <= k < |uploads| && c in Codes(uploads[k].rows)
  {
    if uploads == [] then {}
    else
      var init := uploads[..|uploads| - 1];
      var all := AllCodes(init) + Elems(Codes(uploads[|uploads| - 1].rows));
      assert forall c :: c in all <==> exists k :: 0 <= k < |uploads| && c in Codes(uploads[k].rows) by {
        forall c
          ensures c in all <==> exists k :: 0 <= k < |uploads| && c in Codes(uploads[k].rows)
        {
          if exists k :: 0 <= k < |uploads| && c in Codes(uploads[k].rows) {
            var k :| 0 <= k < |uploads| && c in Codes(uploads[k].rows);
            if k < |uploads| - 1 {
              assert init[k] == uploads[k];
            }
          }
        }
      }
      all
  }

  predicate FilesCover(fileNames: seq<string>, files: map<string, FileIndex>)
  {
    forall fn :: fn in fileNames ==> fn in files && IndexWF(files[fn])
  }

  /** `file_dicts` after the loop: keyed by stem, so a later upload with the
      same stem replaces the entry of an earlier one. */
  function FileDicts(uploads: seq<Upload>): (files: map<string, FileIndex>)
    requires AllHaveCodes(uploads)
    ensures files.Keys == Elems(Stems(uploads))
    ensures forall fn :: fn in files ==> IndexWF(files[fn])
  {
    if uploads == [] then map[]
    else
      var last := uploads[|uploads| - 1];
      assert Stems(uploads) == Stems(uploads[..|uploads| - 1]) + [Stem(last.fileName)];
      FileDicts(uploads[..|uploads| - 1])[Stem(last.fileName) := IndexOf(last.rows)]
  }

  /** `list(file_dicts.keys())` (line 76): each stem once, where it was
      first inserted; a dict keeps a key's place when its value is replaced. */
  function FileNames(uploads: seq<Upload>): (fns: seq<string>)
    ensures Distinct(fns) && Elems(fns) == Elems(Stems(uploads))
  {
    FirstSeen(Stems(uploads))
  }

  lemma AllCodesSnoc(uploads: seq<Upload>, u: Upload)
    requires AllHaveCodes(uploads) && HasCodes(u.rows)
    ensures AllHaveCodes(uploads + [u])
    ensures AllCodes(uploads + [u]) == AllCodes(uploads) + PairsByCode(u.rows).Keys
  {
    assert (uploads + [u])[..|uploads|] == uploads;
  }

  lemma FileDictsSnoc(uploads: seq<Upload>, u: Upload)
    requires AllHaveCodes(uploads) && HasCodes(u.rows)
    ensures AllHaveCodes(uploads + [u])
    ensures FileDicts(uploads + [u]) == FileDicts(uploads)[Stem(u.fileName) := IndexOf(u.rows)]
  {
    var all := uploads + [u];
    assert all[..|all| - 1] == uploads;
    assert all[|all| - 1] == u;
  }

  lemma FileNamesSnoc(uploads: seq<Upload>, u: Upload)
    requires AllHaveCodes(uploads)
    ensures Stem(u.fileName) in FileDicts(uploads) ==> FileNames(uploads + [u]) == FileNames(uploads)
    ensures Stem(u.fileName) !in FileDicts(uploads) ==> FileNames(uploads + [u]) == FileNames(uploads) + [Stem(u.fileName)]
  {
    var all := uploads + [u];
    assert all[..|uploads|] == uploads;
    assert Stems(all) == Stems(uploads) + [Stem(u.fileName)];
    assert Stems(all)[..|uploads|] == Stems(uploads);
    assert Stem(u.fileName) in FileDicts(uploads) <==> Stem(u.fileName) in Elems(FileNames(uploads));
  }

  /** The loop of lines 45-66, with `sorted(all_eq_codes)` of line 69. */
  method IndexUploads(uploads: seq<Upload>)
    returns (master: seq<string>, fileNames: seq<string>, files: map<string, FileIndex>)
    requires AllHaveCodes(uploads)
    ensures StrictlySorted(master) && Elems(master) == AllCodes(uploads)
    ensures fileNames == FileNames(uploads)
    ensures files == FileDicts(uploads)
    ensures FilesCover(fileNames, files)
  {
    var allCodes: set<string> := {};
    fileNames, files := [], map[];
    for k := 0 to |uploads|
      invariant allCodes == AllCodes(uploads[..k])
      invariant fileNames == FileNames(uploads[..k])
      invariant files == FileDicts(uploads[..k])
    {
      var u := uploads[k];
      SeqSnoc(uploads, k);
      AllCodesSnoc(uploads[..k], u);
      FileDictsSnoc(uploads[..k], u);
      FileNamesSnoc(uploads[..k], u);
      var pairs, codes := BuildCodeIndex(u.rows);
      allCodes := allCodes + pairs.Keys;
      var sortedCodes := Sort(codes);
      var fileName := Stem(u.fileName);
      if fileName !in files {
        fileNames := fileNames + [fileName];
      }
      files := files[fileName := FileIndex(pairs, codes, sortedCodes)];
    }
    assert uploads[..|uploads|] == uploads;
    master := SortSet(allCodes);
  }

  // ---------------------------------------------------------------------
  // Prefix matching (lines 94-114)

  /** `matched_pairs` (lines 98-101): the pair lists of the codes that start
      with `m`, concatenated in the order the dict visits its codes. */
  function Gather(codes: seq<string>, pairs: map<string, seq<Pair>>, m: string): seq<Pair>
    requires forall c :: c in codes ==> c in pairs
  {
    if codes == [] then []
    else
      var c := codes[|codes| - 1];
      Gather(codes[..|codes| - 1], pairs, m) + (if m <= c then pairs[c] else [])
  }

  function MatchedPairs(idx: FileIndex, m: string): seq<Pair>
    requires IndexWF(idx)
  {
    Gather(idx.codes, idx.pairs, m)
  }

  /** The inner loop of lines 98-101. */
  method MatchInFile(idx: FileIndex, m: string) returns (matched: seq<Pair>)
    requires IndexWF(idx)
    ensures matched == MatchedPairs(idx, m)
  {
    matched := [];
    for k := 0 to |idx.codes|
      invariant matched == Gather(idx.codes[..k], idx.pairs, m)
    {
      var c := idx.codes[k];
      assert idx.codes[..k + 1][..k] == idx.codes[..k];
      if m <= c {
        matched := matched + idx.pairs[c];
      }
    }
    assert idx.codes[..|idx.codes|] == idx.codes;
  }

  /** The pairs of the rows whose stripped code starts with `m`, in row order. */
  function PrefixPairs(rows: seq<Row>, m: string): seq<Pair>
    requires HasCodes(rows)
  {
    if rows == [] then []
    else
      var last := rows[|rows| - 1];
      PrefixPairs(rows[..|rows| - 1], m) + (if m <= CodeOf(last) then [PairOf(last)] else [])
  }

  /** The pairs of the rows whose code is in `s` and starts with `m`. */
  function PairsIn(rows: seq<Row>, s: set<string>, m: string): seq<Pair>
    requires HasCodes(rows)
  {
    if rows == [] then []
    else
      var last := rows[|rows| - 1];
      PairsIn(rows[..|rows| - 1], s, m) + (if CodeOf(last) in s && m <= CodeOf(last) then [PairOf(last)] else [])
  }

  lemma MultisetSnocLeft<T>(a: seq<T>, b: seq<T>, extra: seq<T>, x: T)
    requires multiset(a) == multiset(b) + multiset(extra)
    ensures multiset(a + [x]) == multiset(b) + multiset(extra + [x])
  {
  }

  lemma MultisetSnocBoth<T>(a: seq<T>, b: seq<T>, extra: multiset<T>, x: T)
    requires multiset(a) == multiset(b) + extra
    ensures multiset(a + [x]) == multiset(b + [x]) + extra
  {
  }

  lemma {:induction false} PairsInAddCode(rows: seq<Row>, s: set<string>, c: string, m: string)
    requires HasCodes(rows)
    requires c !in s
    ensures multiset(PairsIn(rows, s + {c}, m)) ==
            multiset(PairsIn(rows, s, m)) + (if m <= c then multiset(PairsOfCode(rows, c)) else multiset{})
  {
    if rows == [] {
      return;
    }
    var init, last := rows[..|rows| - 1], rows[|rows| - 1];
    var code, pair := CodeOf(last), PairOf(last);
    PairsInAddCode(init, s, c, m);
    var withC, without, own := PairsIn(init, s + {c}, m), PairsIn(init, s, m), PairsOfCode(init, c);
    if code == c {
      assert PairsIn(rows, s, m) == without;
      assert PairsOfCode(rows, c) == own + [pair];
      if m <= c {
        assert PairsIn(rows, s + {c}, m) == withC + [pair];
        MultisetSnocLeft(withC, without, own, pair);
      } else {
        assert PairsIn(rows, s + {c}, m) == withC;
      }
    } else {
      assert PairsOfCode(rows, c) == own;
      var more := if m <= c then multiset(own) else multiset{};
      if code in s && m <= code {
        assert PairsIn(rows, s + {c}, m) == withC + [pair];
        assert PairsIn(rows, s, m) == without + [pair];
        MultisetSnocBoth(withC, without, more, pair);
      } else {
        assert PairsIn(rows, s + {c}, m) == withC;
        assert PairsIn(rows, s, m) == without;
      }
    }
  }

  lemma {:induction false} PairsInEverything(rows: seq<Row>, s: set<string>, m: string)
    requires HasCodes(rows)
    requires forall i :: 0 <= i < |rows| ==> CodeOf(rows[i]) in s
    ensures PairsIn(rows, s, m) == PrefixPairs(rows, m)
  {
    if rows != [] {
      PairsInEverything(rows[..|rows| - 1], s, m);
    }
  }

  lemma {:induction false} GatherIsPairsIn(rows: seq<Row>, ks: seq<string>, m: string)
    requires HasCodes(rows)
    requires Distinct(ks)
    requires forall c :: c in ks ==> c in PairsByCode(rows)
    ensures multiset(Gather(ks, PairsByCode(rows), m)) == multiset(PairsIn(rows, Elems(ks), m))
  {
    if ks == [] {
      assert Elems(ks) == {};
      PairsInNothing(rows, m);
    } else {
      var init, c := ks[..|ks| - 1], ks[|ks| - 1];
      var pairs := PairsByCode(rows);
      assert ks == init + [c];
      assert Elems(ks) == Elems(init) + {c};
      assert c !in Elems(init);
      assert Gather(ks, pairs, m) == Gather(init, pairs, m) + (if m <= c then pairs[c] else []);
      assert pairs[c] == PairsOfCode(rows, c);
      GatherIsPairsIn(rows, init, m);
      PairsInAddCode(rows, Elems(init), c, m);
    }
  }

  lemma {:induction false} PairsInNothing(rows: seq<Row>, m: string)
    requires HasCodes(rows)
    ensures PairsIn(rows, {}, m) == []
  {
    if rows != [] {
      PairsInNothing(rows[..|rows| - 1], m);
    }
  }

  /** What the matcher collects for (m, file) is, up to order, the pair of
      every row of that upload whose stripped code starts with `m`; so the
      count in "Y(n)" is the number of such rows. */
  lemma MatchedPairsAreRowMatches(rows: seq<Row>, m: string)
    requires HasCodes(rows)
    ensures multiset(MatchedPairs(IndexOf(rows), m)) == multiset(PrefixPairs(rows, m))
    ensures |MatchedPairs(IndexOf(rows), m)| == |PrefixPairs(rows, m)|
  {
    var idx := IndexOf(rows);
    GatherIsPairsIn(rows, idx.codes, m);
    PairsInEverything(rows, Elems(idx.codes), m);
    assert |MatchedPairs(idx, m)| == |multiset(MatchedPairs(idx, m))|;
  }

  lemma {:induction false} OwnCodeHasPrefixPair(rows: seq<Row>, m: string)
    requires HasCodes(rows)
    requires m in Codes(rows)
    ensures |PrefixPairs(rows, m)| >= 1
  {
    var init := rows[..|rows| - 1];
    if CodeOf(rows[|rows| - 1]) != m {
      var i :| 0 <= i < |rows| && Codes(rows)[i] == m;
      assert Codes(init)[i] == m;
      OwnCodeHasPrefixPair(init, m);
    }
  }

  /** A master code that is itself a code of the file is always matched
      there: its indicator is "Y(..)". */
  lemma OwnCodeIndicatedY(rows: seq<Row>, m: string)
    requires HasCodes(rows)
    requires m in Codes(rows)
    ensures Indicator(|MatchedPairs(IndexOf(rows), m)|) != "N"
  {
    OwnCodeHasPrefixPair(rows, m);
    MatchedPairsAreRowMatches(rows, m);
    IndicatorN(|MatchedPairs(IndexOf(rows), m)|);
  }

  /** Prefix monotonicity: every pair matched for a longer code `m2` is also
      matched for its prefix `m1`. */
  lemma {:induction false} PrefixMonotone(codes: seq<string>, pairs: map<string, seq<Pair>>, m1: string, m2: string)
    requires forall c :: c in codes ==> c in pairs
    requires m1 <= m2
    ensures multiset(Gather(codes, pairs, m2)) <= multiset(Gather(codes, pairs, m1))
  {
    if codes != [] {
      var c := codes[|codes| - 1];
      PrefixMonotone(codes[..|codes| - 1], pairs, m1, m2);
      if m2 <= c {
        assert m1 == c[..|m1|];
      }
    }
  }

  // ---------------------------------------------------------------------
  // Indicators, names and Mismatch (lines 103-107, 113-132)

  /** The cell written for one (master code, file): `f"Y({count})"` or "N". */
  function Indicator(count: nat): string
  {
    if count > 0 then "Y(" + NatToString(count) + ")" else "N"
  }

  lemma IndicatorN(count: nat)
    ensures Indicator(count) == "N" <==> count == 0
  {
    if count > 0 {
      assert Indicator(count)[0] == 'Y';
    }
  }

  /** Two indicator cells are equal exactly when the counts are. */
  lemma IndicatorInjective(a: nat, b: nat)
    ensures Indicator(a) == Indicator(b) <==> a == b
  {
    IndicatorN(a);
    IndicatorN(b);
    if a > 0 && b > 0 && Indicator(a) == Indicator(b) {
      var sa, sb := NatToString(a), NatToString(b);
      assert |sa| == |sb|;
      assert sa == Indicator(a)[2..|sa| + 2];
      assert sb == Indicator(b)[2..|sb| + 2];
      NatToStringInjective(a, b);
    }
  }

  /** `check_mismatch` (lines 127-129): "Y" when the cells do not all hold
      the same string. */
  function CheckMismatch(cells: seq<string>): (flag: string)
    ensures flag == "Y" || flag == "N"
    ensures flag == "Y" <==> exists i, j :: 0 <= i < |cells| && 0 <= j < |cells| && cells[i] != cells[j]
  {
    ManyIffTwoDistinct(cells);
    if |Elems(cells)| > 1 then "Y" else "N"
  }

  function Indicators(m: string, fileNames: seq<string>, files: map<string, FileIndex>): (cells: seq<string>)
    requires FilesCover(fileNames, files)
    ensures |cells| == |fileNames|
  {
    seq(|fileNames|, j requires 0 <= j < |fileNames| => Indicator(|MatchedPairs(files[fileNames[j]], m)|))
  }

  function NamesOf(ps: seq<Pair>): set<string>
  {
    set p | p in ps :: p.name
  }

  /** `eq_code_to_all_names[m]` once every file has been matched. */
  function NameUnion(m: string, fileNames: seq<string>, files: map<string, FileIndex>): set<string>
    requires FilesCover(fileNames, files)
  {
    if fileNames == [] then {}
    else
      NameUnion(m, fileNames[..|fileNames| - 1], files) + NamesOf(MatchedPairs(files[fileNames[|fileNames| - 1]], m))
  }

  lemma {:induction false} NameUnionCovers(m: string, fileNames: seq<string>, files: map<string, FileIndex>, j: nat)
    requires FilesCover(fileNames, files) && j < |fileNames|
    ensures NamesOf(MatchedPairs(files[fileNames[j]], m)) <= NameUnion(m, fileNames, files)
  {
    var init := fileNames[..|fileNames| - 1];
    if j < |init| {
      assert init[j] == fileNames[j];
      NameUnionCovers(m, init, files, j);
    }
  }

  lemma {:induction false} NameUnionFrom(m: string, fileNames: seq<string>, files: map<string, FileIndex>, x: string)
    requires FilesCover(fileNames, files) && x in NameUnion(m, fileNames, files)
    ensures exists j :: 0 <= j < |fileNames| && x in NamesOf(MatchedPairs(files[fileNames[j]], m))
  {
    var init, last := fileNames[..|fileNames| - 1], fileNames[|fileNames| - 1];
    if x in NameUnion(m, init, files) {
      NameUnionFrom(m, init, files, x);
      var j :| 0 <= j < |init| && x in NamesOf(MatchedPairs(files[init[j]], m));
      assert fileNames[j] == init[j];
    } else {
      assert x in NamesOf(MatchedPairs(files[fileNames[|fileNames| - 1]], m));
    }
  }

  /** A name is in a master code's name set exactly when some file matched
      a pair carrying it. */
  lemma NameUnionMembers(m: string, fileNames: seq<string>, files: map<string, FileIndex>, x: string)
    requires FilesCover(fileNames, files)
    ensures x in NameUnion(m, fileNames, files) <==>
            exists j :: 0 <= j < |fileNames| && x in NamesOf(MatchedPairs(files[fileNames[j]], m))
  {
    if x in NameUnion(m, fileNames, files) {
      NameUnionFrom(m, fileNames, files, x);
    }
    if exists j :: 0 <= j < |fileNames| && x in NamesOf(MatchedPairs(files[fileNames[j]], m)) {
      var j :| 0 <= j < |fileNames| && x in NamesOf(MatchedPairs(files[fileNames[j]], m));
      NameUnionCovers(m, fileNames, files, j);
    }
  }

  /** The Equipment Name cell (line 121): the names sorted and joined with
      ", ", or "" when there are none. */
  ghost function NamesCell(names: set<string>): string
  {
    if names == {} then "" else Join(", ", SortedOf(names))
  }

  /** The row of `result_df` for master code `m`. */
  ghost function ExpectedRow(m: string, fileNames: seq<string>, files: map<string, FileIndex>): ResultRow
    requires FilesCover(fileNames, files)
  {
    var cells := Indicators(m, fileNames, files);
    ResultRow(m, NamesCell(NameUnion(m, fileNames, files)), cells, CheckMismatch(cells))
  }

  /** A row is flagged exactly when two files matched a different number of
      rows for its code, presence against absence included. */
  lemma MismatchIffCountsDiffer(m: string, fileNames: seq<string>, files: map<string, FileIndex>)
    requires FilesCover(fileNames, files)
    ensures ExpectedRow(m, fileNames, files).mismatch == "Y" <==>
            exists i, j :: 0 <= i < |fileNames| && 0 <= j < |fileNames| &&
                           |MatchedPairs(files[fileNames[i]], m)| != |MatchedPairs(files[fileNames[j]], m)|
  {
    var cells := Indicators(m, fileNames, files);
    forall i, j | 0 <= i < |fileNames| && 0 <= j < |fileNames|
      ensures cells[i] != cells[j] <==>
              |MatchedPairs(files[fileNames[i]], m)| != |MatchedPairs(files[fileNames[j]], m)|
    {
      IndicatorInjective(|MatchedPairs(files[fileNames[i]], m)|, |MatchedPairs(files[fileNames[j]], m)|);
    }
  }

  lemma SingleFileNeverMismatch(m: string, fileNames: seq<string>, files: map<string, FileIndex>)
    requires FilesCover(fileNames, files)
    requires |fileNames| == 1
    ensures ExpectedRow(m, fileNames, files).mismatch == "N"
  {
  }

  ghost predicate MatchedMapIs(matched: map<(string, string), seq<Pair>>, master: seq<string>,
                               fileNames: seq<string>, files: map<string, FileIndex>)
    requires FilesCover(fileNames, files)
  {
    (forall key :: key in matched <==> key.0 in master && key.1 in fileNames) &&
    (forall key :: key in matched ==> matched[key] == MatchedPairs(files[key.1], key.0))
  }

  lemma IndicatorsSnoc(m: string, fileNames: seq<string>, j: nat, files: map<string, FileIndex>)
    requires FilesCover(fileNames, files) && j < |fileNames|
    ensures FilesCover(fileNames[..j], files) && FilesCover(fileNames[..j + 1], files)
    ensures Indicators(m, fileNames[..j + 1], files) ==
            Indicators(m, fileNames[..j], files) + [Indicator(|MatchedPairs(files[fileNames[j]], m)|)]
  {
    assert fileNames[..j + 1][..j] == fileNames[..j];
  }

  lemma NameUnionSnoc(m: string, fileNames: seq<string>, j: nat, files: map<string, FileIndex>)
    requires FilesCover(fileNames, files) && j < |fileNames|
    ensures FilesCover(fileNames[..j], files) && FilesCover(fileNames[..j + 1], files)
    ensures NameUnion(m, fileNames[..j + 1], files) ==
            NameUnion(m, fileNames[..j], files) + NamesOf(MatchedPairs(files[fileNames[j]], m))
  {
    assert fileNames[..j + 1][..j] == fileNames[..j];
  }

  /** `matched` is `matched0` with the entries `(m, fn)` for every `fn` of
      `fns` set to what the matcher collects. */
  ghost predicate MatchedFor(matched: map<(string, string), seq<Pair>>, matched0: map<(string, string), seq<Pair>>,
                             m: string, fns: seq<string>, files: map<string, FileIndex>)
    requires FilesCover(fns, files)
  {
    (forall key :: key in matched <==> key in matched0 || (key.0 == m && key.1 in fns)) &&
    (forall key :: key in matched ==>
       matched[key] == if key.0 == m && key.1 in fns then MatchedPairs(files[key.1], m) else matched0[key])
  }

  lemma MatchedForSnoc(matched: map<(string, string), seq<Pair>>, matched0: map<(string, string), seq<Pair>>,
                       m: string, fileNames: seq<string>, j: nat, files: map<string, FileIndex>)
    requires FilesCover(fileNames, files) && j < |fileNames|
    requires FilesCover(fileNames[..j], files) && MatchedFor(matched, matched0, m, fileNames[..j], files)
    ensures FilesCover(fileNames[..j + 1], files)
    ensures MatchedFor(matched[(m, fileNames[j]) := MatchedPairs(files[fileNames[j]], m)], matched0, m, fileNames[..j + 1], files)
  {
    SeqSnoc(fileNames, j);
    assert forall fn :: fn in fileNames[..j + 1] <==> fn in fileNames[..j] || fn == fileNames[j];
  }

  /** The inner loop of lines 94-114 for one master code `m`: one indicator
      per file, `matched_map[(m, fn)]` for every file, and the matched names
      added to `names0`, the code's name set so far. */
  method MatchCode(m: string, fileNames: seq<string>, files: map<string, FileIndex>,
                   names0: set<string>, matched0: map<(string, string), seq<Pair>>)
    returns (row: seq<string>, names: set<string>, matched: map<(string, string), seq<Pair>>)
    requires FilesCover(fileNames, files)
    ensures row == Indicators(m, fileNames, files)
    ensures names == names0 + NameUnion(m, fileNames, files)
    ensures MatchedFor(matched, matched0, m, fileNames, files)
  {
    row, names, matched := [], names0, matched0;
    assert fileNames[..0] == [];
    for j := 0 to |fileNames|
      invariant FilesCover(fileNames[..j], files) && row == Indicators(m, fileNames[..j], files)
      invariant names == names0 + NameUnion(m, fileNames[..j], files)
      invariant MatchedFor(matched, matched0, m, fileNames[..j], files)
    {
      var fn := fileNames[j];
      NameUnionSnoc(m, fileNames, j, files);
      IndicatorsSnoc(m, fileNames, j, files);
      var pairs := MatchInFile(files[fn], m);
      MatchedForSnoc(matched, matched0, m, fileNames, j, files);
      row := row + [Indicator(|pairs|)];
      matched := matched[(m, fn) := pairs];
      names := names + NamesOf(pairs);
    }
    assert fileNames[..|fileNames|] == fileNames;
  }

  /** STEP B (lines 73-114): the indicator cells of every master code, its
      set of matched names, and `matched_map`. */
  method FillIndicators(master: seq<string>, fileNames: seq<string>, files: map<string, FileIndex>)
    returns (cells: seq<seq<string>>, allNames: map<string, set<string>>, matched: map<(string, string), seq<Pair>>)
    requires Distinct(master)
    requires FilesCover(fileNames, files)
    ensures |cells| == |master|
    ensures forall k :: 0 <= k < |master| ==> cells[k] == Indicators(master[k], fileNames, files)
    ensures allNames.Keys == Elems(master)
    ensures forall k :: 0 <= k < |master| ==> allNames[master[k]] == NameUnion(master[k], fileNames, files)
    ensures MatchedMapIs(matched, master, fileNames, files)
  {
    allNames := map mc | mc in master :: {};
    cells, matched := [], map[];
    for i := 0 to |master|
      invariant |cells| == i
      invariant forall k :: 0 <= k < i ==> cells[k] == Indicators(master[k], fileNames, files)
      invariant allNames.Keys == Elems(master)
      invariant forall k :: 0 <= k < i ==> allNames[master[k]] == NameUnion(master[k], fileNames, files)
      invariant forall k :: i <= k < |master| ==> allNames[master[k]] == {}
      invariant forall key :: key in matched <==> key.0 in master[..i] && key.1 in fileNames
      invariant forall key :: key in matched ==> matched[key] == MatchedPairs(files[key.1], key.0)
    {
      var m := master[i];
      SeqSnoc(master, i);
      var row, names;
      row, names, matched := MatchCode(m, fileNames, files, allNames[m], matched);
      assert names == NameUnion(m, fileNames, files);
      assert forall k :: 0 <= k < |master| && k != i ==> master[k] != m;
      cells := cells + [row];
      allNames := allNames[m := names];
    }
    assert master[..|master|] == master;
  }

  /** STEP C (lines 118-121): the Equipment Name cell of every master code. */
  method BuildNameColumn(master: seq<string>, allNames: map<string, set<string>>) returns (nameCells: seq<string>)
    requires forall mc :: mc in master ==> mc in allNames
    ensures |nameCells| == |master|
    ensures forall k :: 0 <= k < |master| ==> nameCells[k] == NamesCell(allNames[master[k]])
  {
    nameCells := [];
    for i := 0 to |master|
      invariant |nameCells| == i
      invariant forall k :: 0 <= k < i ==> nameCells[k] == NamesCell(allNames[master[k]])
    {
      var names := allNames[master[i]];
      var cell := "";
      if names != {} {
        var sorted := SortSet(names);
        cell := Join(", ", sorted);
      }
      nameCells := nameCells + [cell];
    }
  }

  /** STEP B to STEP D (lines 73-132): the whole table and `matched_map`. */
  method Reconcile(master: seq<string>, fileNames: seq<string>, files: map<string, FileIndex>)
    returns (table: seq<ResultRow>, matched: map<(string, string), seq<Pair>>)
    requires Distinct(master)
    requires FilesCover(fileNames, files)
    ensures |table| == |master|
    ensures forall i :: 0 <= i < |master| ==> table[i] == ExpectedRow(master[i], fileNames, files)
    ensures MatchedMapIs(matched, master, fileNames, files)
  {
    var cells, allNames;
    cells, allNames, matched := FillIndicators(master, fileNames, files);
    var nameCells := BuildNameColumn(master, allNames);
    table := seq(|master|, i requires 0 <= i < |master| =>
                   ResultRow(master[i], nameCells[i], cells[i], CheckMismatch(cells[i])));
  }

  // ---------------------------------------------------------------------
  // The view and the drill-down (lines 135-139, 185)

  predicate IsMismatch(r: ResultRow)
  {
    r.mismatch == "Y"
  }

  /** `display_df`: with the checkbox ticked only the rows whose Mismatch is
      "Y", in table order; otherwise the whole table. */
  function DisplayRows(table: seq<ResultRow>, onlyMismatches: bool): (shown: seq<ResultRow>)
    ensures !onlyMismatches ==> shown == table
    ensures onlyMismatches ==> IsSubsequence(shown, table)
    ensures onlyMismatches ==> forall r :: r in shown ==> r.mismatch == "Y"
    ensures onlyMismatches ==> forall r :: r in table && r.mismatch == "Y" ==> multiset(shown)[r] == multiset(table)[r]
  {
    if onlyMismatches then Filter(table, IsMismatch) else table
  }

  /** `matched_map.get((eq_code, fn), [])` for every file column. */
  function DrillDown(matched: map<(string, string), seq<Pair>>, code: string, fileNames: seq<string>): (lists: seq<seq<Pair>>)
    ensures |lists| == |fileNames|
  {
    seq(|fileNames|, j requires 0 <= j < |fileNames| =>
          if (code, fileNames[j]) in matched then matched[(code, fileNames[j])] else [])
  }

  /** The drill-down shows, per file, exactly what the matcher collected for a
      master code, and nothing for any other code. */
  lemma DrillDownShowsMatches(matched: map<(string, string), seq<Pair>>, master: seq<string>,
                              fileNames: seq<string>, files: map<string, FileIndex>, code: string)
    requires FilesCover(fileNames, files)
    requires MatchedMapIs(matched, master, fileNames, files)
    ensures forall j :: 0 <= j < |fileNames| ==>
              DrillDown(matched, code, fileNames)[j] ==
              (if code in master then MatchedPairs(files[fileNames[j]], code) else [])
  {
  }

  // ---------------------------------------------------------------------
  // Consequences of the script as written

  lemma {:induction false} NoPrefixNoPairs(rows: seq<Row>, m: string)
    requires HasCodes(rows)
    requires forall i :: 0 <= i < |rows| ==> !(m <= CodeOf(rows[i]))
    ensures PrefixPairs(rows, m) == []
  {
    if rows != [] {
      NoPrefixNoPairs(rows[..|rows| - 1], m);
    }
  }

  lemma StemsOfTwo(u1: Upload, u2: Upload)
    ensures Stems([u1, u2]) == [Stem(u1.fileName), Stem(u2.fileName)]
  {
    assert [u1, u2][..1] == [u1];
    assert [u1][..0] == [];
  }

  /** Two uploads with the same stem give one file column... */
  lemma SameStemOneColumn(u1: Upload, u2: Upload)
    requires Stem(u1.fileName) == Stem(u2.fileName)
    ensures FileNames([u1, u2]) == [Stem(u2.fileName)]
  {
    var stem := Stem(u2.fileName);
    StemsOfTwo(u1, u2);
    var ss := Stems([u1, u2]);
    assert ss == [stem, stem];
    assert ss[..1] == [stem];
    assert [stem][..0] == [];
    assert FirstSeen(ss) == [stem];
  }

  /** ...whose index is the later upload's... */
  lemma SameStemLaterWins(u1: Upload, u2: Upload)
    requires HasCodes(u1.rows) && HasCodes(u2.rows)
    requires Stem(u1.fileName) == Stem(u2.fileName)
    ensures AllHaveCodes([u1, u2])
    ensures FileDicts([u1, u2]) == map[Stem(u2.fileName) := IndexOf(u2.rows)]
  {
    var stem := Stem(u2.fileName);
    assert [u1, u2][..1] == [u1];
    assert [u1][..0] == [];
    var first := FileDicts([u1]);
    assert first == map[][stem := IndexOf(u1.rows)];
    assert FileDicts([u1, u2]) == first[stem := IndexOf(u2.rows)];
    MapsAgree(first[stem := IndexOf(u2.rows)], map[stem := IndexOf(u2.rows)]);
  }

  /** ...while the codes of both go into `all_eq_codes`. */
  lemma SameStemKeepsAllCodes(u1: Upload, u2: Upload)
    requires HasCodes(u1.rows) && HasCodes(u2.rows)
    ensures AllHaveCodes([u1, u2])
    ensures AllCodes([u1, u2]) == PairsByCode(u1.rows).Keys + PairsByCode(u2.rows).Keys
  {
    assert [] + [u1] == [u1] && [u1] + [u2] == [u1, u2];
    AllCodesSnoc([], u1);
    AllCodesSnoc([u1], u2);
  }

  lemma UnmatchedInOnlyFile(rows: seq<Row>, c: string, stem: string)
    requires HasCodes(rows)
    requires forall i :: 0 <= i < |rows| ==> !(c <= CodeOf(rows[i]))
    ensures FilesCover([stem], map[stem := IndexOf(rows)])
    ensures Indicators(c, [stem], map[stem := IndexOf(rows)]) == ["N"]
    ensures ExpectedRow(c, [stem], map[stem := IndexOf(rows)]).mismatch == "N"
  {
    NoPrefixNoPairs(rows, c);
    MatchedPairsAreRowMatches(rows, c);
    var cells := Indicators(c, [stem], map[stem := IndexOf(rows)]);
    assert cells[0] == Indicator(0);
    assert cells == ["N"];
  }

  /** A code of the replaced upload that no code of the later one starts
      with still gets a master row: "N" in the only file column, and the
      row is not flagged. */
  lemma ReplacedUploadLeavesOrphanCodes(u1: Upload, u2: Upload, c: string)
    requires HasCodes(u1.rows) && HasCodes(u2.rows)
    requires Stem(u1.fileName) == Stem(u2.fileName)
    requires c in Codes(u1.rows)
    requires forall i :: 0 <= i < |u2.rows| ==> !(c <= CodeOf(u2.rows[i]))
    ensures AllHaveCodes([u1, u2])
    ensures c in AllCodes([u1, u2])
    ensures Indicators(c, FileNames([u1, u2]), FileDicts([u1, u2])) == ["N"]
    ensures ExpectedRow(c, FileNames([u1, u2]), FileDicts([u1, u2])).mismatch == "N"
  {
    SameStemOneColumn(u1, u2);
    SameStemLaterWins(u1, u2);
    SameStemKeepsAllCodes(u1, u2);
    UnmatchedInOnlyFile(u2.rows, c, Stem(u2.fileName));
  }

  /** Duplicates are looked for on the raw cells: two rows whose raw codes
      differ are never duplicates of each other... */
  lemma DifferentRawCodesAreNotDuplicates(r1: Row, r2: Row)
    requires HasDuplicateColumns([r1, r2])
    requires Cell(r1, CodeColumn) != Cell(r2, CodeColumn)
    ensures r1 !in DuplicateRows([r1, r2]) && r2 !in DuplicateRows([r1, r2])
  {
    var rows := [r1, r2];
    assert rows[0] == r1 && rows[1] == r2;
    assert DuplicateKey(r1) != DuplicateKey(r2);
  }

  /** ...while the index strips them: "A" and "A " land under one code. */
  lemma TrailingSpaceSharesCode(r1: Row, r2: Row)
    requires CodeColumn in r1 && CodeColumn in r2
    requires r1[CodeColumn] == "A" && r2[CodeColumn] == "A "
    ensures r1 !in [r2] && CodeOf(r1) == CodeOf(r2) == "A"
  {
    assert "A" != "A ";
    assert TrimStart("A ") == "A ";
    assert "A "[..1] == "A";
  }

  // ---------------------------------------------------------------------
  // The whole script

  lemma DuplicateColumnsHaveCodes(uploads: seq<Upload>)
    requires forall k :: 0 <= k < |uploads| ==> HasDuplicateColumns(uploads[k].rows)
    ensures AllHaveCodes(uploads)
  {
  }

  /** Compare_wip.py from the uploads to the table: `None` when nothing was
      uploaded (line 192), otherwise each upload's duplicates, the master
      list, the file columns, the table and `matched_map`. */
  method CompareUploads(uploads: seq<Upload>) returns (result: Option<Comparison>)
    requires forall k :: 0 <= k < |uploads| ==> HasDuplicateColumns(uploads[k].rows)
    ensures uploads == [] <==> result == None
    ensures result.Some? ==> AllHaveCodes(uploads)
    ensures result.Some? ==>
              var c := result.value;
              && |c.duplicates| == |uploads|
              && (forall k :: 0 <= k < |uploads| ==> c.duplicates[k] == DuplicateRows(uploads[k].rows))
              && StrictlySorted(c.master) && Elems(c.master) == AllCodes(uploads)
              && c.fileNames == FileNames(uploads)
              && FilesCover(c.fileNames, FileDicts(uploads))
              && |c.table| == |c.master|
              && (forall i :: 0 <= i < |c.master| ==> c.table[i] == ExpectedRow(c.master[i], c.fileNames, FileDicts(uploads)))
              && MatchedMapIs(c.matched, c.master, c.fileNames, FileDicts(uploads))
  {
    if uploads == [] {
      return None;
    }
    var duplicates: seq<seq<Row>> := [];
    for k := 0 to |uploads|
      invariant |duplicates| == k
      invariant forall t :: 0 <= t < k ==> duplicates[t] == DuplicateRows(uploads[t].rows)
    {
      duplicates := duplicates + [DuplicateRows(uploads[k].rows)];
    }
    DuplicateColumnsHaveCodes(uploads);
    var master, fileNames, files := IndexUploads(uploads);
    SortedIsDistinct(master);
    var table, matched := Reconcile(master, fileNames, files);
    return Some(Comparison(duplicates, master, fileNames, table, matched));
  }
}
