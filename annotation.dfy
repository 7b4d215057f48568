/** The two annotation readers: each walks the tab-separated lines of an
    annotation file and collects, per gene, the terms annotated to it. A
    file is a sequence of lines, each with its line terminator as Python's
    file iteration yields it. */
module AnnotationParsing {
  import opened Results
  import opened Text

  type Lists = map<string, seq<string>>

  // ---------------------------------------------------------------------
  // hpo_parsing_ann

  datatype HpoAnnState = HpoAnnState(geneIdSymbol: map<string, string>, geneTermId: Lists)

  /** What one line does: a line starting with `#` is skipped; otherwise
      its columns 1, 2 and the first ten characters of column 4 are the gene
      id, the gene symbol and the term (`IndexError` with fewer than four
      columns). A gene id seen for the first time records its symbol and
      gives the symbol an empty list; then the term is appended to the list
      of this line's symbol (`KeyError` when the symbol has no list). */
  function HpoAnnLine(st: HpoAnnState, line: string): Result<HpoAnnState> {
    if StartsWith(line, "#") then Ok(st)
    else
      var columns := Split(line, '\t');
      if |columns| < 4 then Err(IndexError)
      else
        var geneId := columns[0];
        var geneSymbol := columns[1];
        var termId := Slice(columns[3], 0, 10);
        var st' := if geneId !in st.geneIdSymbol
          then HpoAnnState(st.geneIdSymbol[geneId := geneSymbol], st.geneTermId[geneSymbol := []])
          else st;
        if geneSymbol !in st'.geneTermId then Err(KeyError)
        else Ok(st'.(geneTermId := st'.geneTermId[geneSymbol := st'.geneTermId[geneSymbol] + [termId]]))
  }

  function HpoAnnLines(lines: seq<string>): Result<HpoAnnState>
    decreases |lines|
  {
    if |lines| == 0 then Ok(HpoAnnState(map[], map[]))
    else
      match HpoAnnLines(lines[..|lines| - 1])
      case Err(e) => Err(e)
      case Ok(st) => HpoAnnLine(st, lines[|lines| - 1])
  }

  /** `hpo_parsing_ann`: gene symbol to the terms annotated to it. */
  method HpoParsingAnn(lines: seq<string>) returns (r: Result<Lists>)
    ensures r.Ok? <==> HpoAnnLines(lines).Ok?
    ensures r.Ok? ==> r.value == HpoAnnLines(lines).value.geneTermId
    ensures r.Err? ==> r == HpoAnnLines(lines).PropagateFailure()
  {
    var geneIdSymbol: map<string, string> := map[];
    var geneTermId: Lists := map[];
    for i := 0 to |lines|
      invariant HpoAnnLines(lines[..i]) == Ok(HpoAnnState(geneIdSymbol, geneTermId))
    {
      var line := lines[i];
      assert lines[..i + 1][..i] == lines[..i];
      if !StartsWith(line, "#") {
        var columns := Split(line, '\t');
        if |columns| < 4 {
          HpoAnnErrPersists(lines[..i + 1], lines[i + 1..]);
          assert lines[..i + 1] + lines[i + 1..] == lines;
          return Err(IndexError);
        }
        var geneId := columns[0];
        var geneSymbol := columns[1];
        var termId := Slice(columns[3], 0, 10);
        if geneId !in geneIdSymbol {
          geneIdSymbol := geneIdSymbol[geneId := geneSymbol];
          geneTermId := geneTermId[geneSymbol := []];
        }
        if geneSymbol !in geneTermId {
          HpoAnnErrPersists(lines[..i + 1], lines[i + 1..]);
          assert lines[..i + 1] + lines[i + 1..] == lines;
          return Err(KeyError);
        }
        geneTermId := geneTermId[geneSymbol := geneTermId[geneSymbol] + [termId]];
      }
    }
    assert lines[..|lines|] == lines;
    r := Ok(geneTermId);
  }

  lemma {:induction false} HpoAnnErrPersists(lines: seq<string>, rest: seq<string>)
    requires HpoAnnLines(lines).Err?
    ensures HpoAnnLines(lines + rest) == HpoAnnLines(lines)
    decreases |rest|
  {
    if |rest| > 0 {
      HpoAnnErrPersists(lines, rest[..|rest| - 1]);
      assert (lines + rest)[..|lines + rest| - 1] == lines + rest[..|rest| - 1];
    } else {
      assert lines + rest == lines;
    }
  }

  /** The symbols with a list are exactly the symbols recorded for the gene
      ids seen. */
  ghost predicate SymbolsListed(st: HpoAnnState) {
    st.geneTermId.Keys == set id | id in st.geneIdSymbol :: st.geneIdSymbol[id]
  }

  lemma {:induction false} HpoAnnLinesListed(lines: seq<string>)
    requires HpoAnnLines(lines).Ok?
    ensures SymbolsListed(HpoAnnLines(lines).value)
    decreases |lines|
  {
    if |lines| > 0 {
      HpoAnnLinesListed(lines[..|lines| - 1]);
      var st := HpoAnnLines(lines[..|lines| - 1]).value;
      var line := lines[|lines| - 1];
      if !StartsWith(line, "#") {
        var columns := Split(line, '\t');
        var geneId := columns[0];
        if geneId !in st.geneIdSymbol {
          var gis := st.geneIdSymbol[geneId := columns[1]];
          var old_ := set id | id in st.geneIdSymbol :: st.geneIdSymbol[id];
          forall y ensures y in (set id | id in gis :: gis[id]) <==> y in old_ + {columns[1]} {
            if y in old_ {
              var id :| id in st.geneIdSymbol && st.geneIdSymbol[id] == y;
              assert gis[id] == y;
            }
            if y == columns[1] {
              assert gis[geneId] == y;
            }
          }
          assert HpoAnnLines(lines).value.geneIdSymbol == gis;
          assert HpoAnnLines(lines).value.geneTermId.Keys == st.geneTermId.Keys + {columns[1]};
        }
      }
    }
  }

  /** So a line raises `KeyError` exactly when its gene id was seen with a
      different symbol and no gene id carries this line's symbol. A gene id
      seen for the first time empties its symbol's list when another id
      already used that symbol. */
  lemma HpoAnnSymbolCases(st: HpoAnnState, line: string)
    requires SymbolsListed(st)
    requires !StartsWith(line, "#") && |Split(line, '\t')| >= 4
    ensures var columns := Split(line, '\t');
      var geneId := columns[0];
      var geneSymbol := columns[1];
      && (HpoAnnLine(st, line) == Err(KeyError) <==>
            geneId in st.geneIdSymbol && forall id :: id in st.geneIdSymbol ==> st.geneIdSymbol[id] != geneSymbol)
      && (geneId !in st.geneIdSymbol ==>
            HpoAnnLine(st, line).Ok? && HpoAnnLine(st, line).value.geneTermId[geneSymbol] == [Slice(columns[3], 0, 10)])
  {
    var columns := Split(line, '\t');
    var geneId := columns[0];
    var geneSymbol := columns[1];
    if geneId in st.geneIdSymbol && geneSymbol in st.geneTermId {
      var id :| id in st.geneIdSymbol && st.geneIdSymbol[id] == geneSymbol;
    }
  }

  /** A line with fewer than three tabs raises `IndexError`; a comment line
      changes nothing. */
  lemma HpoAnnShortLine(st: HpoAnnState, line: string)
    ensures StartsWith(line, "#") ==> HpoAnnLine(st, line) == Ok(st)
    ensures !StartsWith(line, "#") && Occurrences(line, '\t') < 3 ==> HpoAnnLine(st, line) == Err(IndexError)
  {
    SplitPieces(line, '\t');
  }

  /** The stored term is the first ten characters of the fourth column,
      appended to the symbol's list; for a gene id seen before, that list is
      the symbol's previous list. */
  lemma HpoAnnTermPrefix(st: HpoAnnState, line: string)
    requires HpoAnnLine(st, line).Ok? && !StartsWith(line, "#")
    ensures var columns := Split(line, '\t');
      var t := HpoAnnLine(st, line).value.geneTermId[columns[1]];
      && |t| >= 1
      && t[|t| - 1] == Slice(columns[3], 0, 10)
      && |t[|t| - 1]| <= 10
      && (columns[0] in st.geneIdSymbol ==>
            columns[1] in st.geneTermId && t == st.geneTermId[columns[1]] + [Slice(columns[3], 0, 10)])
  {
  }

  // ---------------------------------------------------------------------
  // parsing_ann

  /** The four maps `parsing_ann` returns: gene to synonyms, and gene to
      biological-process, molecular-function and cellular-component terms. */
  datatype GoAnnotations = GoAnnotations(geneSyn: Lists, bp: Lists, mf: Lists, cc: Lists)

  /** `m[k].append(v)` after creating `m[k]` empty when missing. */
  function Append(m: Lists, k: string, v: string): (r: Lists)
    ensures r.Keys == m.Keys + {k}
    ensures r[k] == (if k in m then m[k] else []) + [v]
    ensures forall j :: j in m && j != k ==> r[j] == m[j]
  {
    m[k := (if k in m then m[k] else []) + [v]]
  }

  /** The synonym loop: each synonym not yet on the list is appended. */
  function AddSynonyms(list: seq<string>, synonyms: seq<string>): seq<string>
    decreases |synonyms|
  {
    if |synonyms| == 0 then list
    else
      var before := AddSynonyms(list, synonyms[..|synonyms| - 1]);
      var syn := synonyms[|synonyms| - 1];
      if syn in before then before else before + [syn]
  }

  /** The namespace test: `P` first, then `F`, everything else is a
      cellular component. */
  function Route(acc: GoAnnotations, namespace: string, gene: string, term: string): (r: GoAnnotations)
  {
    if Contains(namespace, "P") then acc.(bp := Append(acc.bp, gene, term))
    else if Contains(namespace, "F") then acc.(mf := Append(acc.mf, gene, term))
    else acc.(cc := Append(acc.cc, gene, term))
  }

  /** What one line does: a line starting with `!` is skipped; otherwise
      it needs four columns, and only a line whose fourth column holds `NOT`
      is kept, which needs eleven columns. The term of column 5 goes to the
      map chosen by column 9, and the `|`-separated synonyms of column 11
      are added to the gene's list, which starts with the gene itself. */
  function GoAnnLine(acc: GoAnnotations, line: string): Result<GoAnnotations> {
    if StartsWith(line, "!") then Ok(acc)
    else
      var cols := Split(line, '\t');
      if |cols| < 4 then Err(IndexError)
      else if !Contains(cols[3], "NOT") then Ok(acc)
      else if |cols| < 11 then Err(IndexError)
      else
        var gene := cols[2];
        var routed := Route(acc, cols[8], gene, cols[4]);
        var base := if gene in routed.geneSyn then routed.geneSyn[gene] else [gene];
        Ok(routed.(geneSyn := routed.geneSyn[gene := AddSynonyms(base, Split(cols[10], '|'))]))
  }

  const GoAnnStart := GoAnnotations(map[], map[], map[], map[])

  function GoAnnLines(lines: seq<string>): Result<GoAnnotations>
    decreases |lines|
  {
    if |lines| == 0 then Ok(GoAnnStart)
    else
      match GoAnnLines(lines[..|lines| - 1])
      case Err(e) => Err(e)
      case Ok(acc) => GoAnnLine(acc, lines[|lines| - 1])
  }

  /** `parsing_ann` */
  method ParsingAnn(lines: seq<string>) returns (r: Result<GoAnnotations>)
    ensures r == GoAnnLines(lines)
    ensures r.Err? ==> r.error == IndexError
  {
    var geneSyn: Lists := map[];
    var bpGeneTerms: Lists := map[];
    var mfGeneTerms: Lists := map[];
    var ccGeneTerms: Lists := map[];
    for i := 0 to |lines|
      invariant GoAnnLines(lines[..i]) == Ok(GoAnnotations(geneSyn, bpGeneTerms, mfGeneTerms, ccGeneTerms))
    {
      var line := lines[i];
      assert lines[..i + 1][..i] == lines[..i];
      ghost var acc := GoAnnotations(geneSyn, bpGeneTerms, mfGeneTerms, ccGeneTerms);
      if !StartsWith(line, "!") {
        var cols := Split(line, '\t');
        if |cols| < 4 {
          GoAnnErrPersists(lines[..i + 1], lines[i + 1..]);
          assert lines[..i + 1] + lines[i + 1..] == lines;
          return Err(IndexError);
        }
        if Contains(cols[3], "NOT") {
          if |cols| < 11 {
            GoAnnErrPersists(lines[..i + 1], lines[i + 1..]);
            assert lines[..i + 1] + lines[i + 1..] == lines;
            return Err(IndexError);
          }
          var gene := cols[2];
          var term := cols[4];
          var namespace := cols[8];
          var synonymCol := cols[10];
          if Contains(namespace, "P") {
            bpGeneTerms := Append(bpGeneTerms, gene, term);
          } else if Contains(namespace, "F") {
            mfGeneTerms := Append(mfGeneTerms, gene, term);
          } else {
            ccGeneTerms := Append(ccGeneTerms, gene, term);
          }
          ghost var routed := Route(acc, namespace, gene, term);
          assert routed == GoAnnotations(geneSyn, bpGeneTerms, mfGeneTerms, ccGeneTerms);
          if gene !in geneSyn {
            geneSyn := geneSyn[gene := [gene]];
          }
          var synonyms := Split(synonymCol, '|');
          ghost var base := geneSyn[gene];
          ghost var before := geneSyn;
          for j := 0 to |synonyms|
            invariant geneSyn == before[gene := AddSynonyms(base, synonyms[..j])]
          {
            assert synonyms[..j + 1][..j] == synonyms[..j];
            var syn := synonyms[j];
            if syn !in geneSyn[gene] {
              geneSyn := geneSyn[gene := geneSyn[gene] + [syn]];
            }
          }
          assert synonyms[..|synonyms|] == synonyms;
          assert base == if gene in acc.geneSyn then acc.geneSyn[gene] else [gene];
          assert geneSyn == acc.geneSyn[gene := AddSynonyms(base, synonyms)];
          assert GoAnnLine(acc, line) == Ok(GoAnnotations(geneSyn, bpGeneTerms, mfGeneTerms, ccGeneTerms));
        }
      }
    }
    assert lines[..|lines|] == lines;
    r := Ok(GoAnnotations(geneSyn, bpGeneTerms, mfGeneTerms, ccGeneTerms));
  }

  lemma {:induction false} GoAnnErrPersists(lines: seq<string>, rest: seq<string>)
    requires GoAnnLines(lines).Err?
    ensures GoAnnLines(lines + rest) == GoAnnLines(lines)
    decreases |rest|
  {
    if |rest| > 0 {
      GoAnnErrPersists(lines, rest[..|rest| - 1]);
      assert (lines + rest)[..|lines + rest| - 1] == lines + rest[..|rest| - 1];
    } else {
      assert lines + rest == lines;
    }
  }

  /** Each element of a list appears once. */
  ghost predicate Distinct(s: seq<string>) {
    forall i, j :: 0 <= i < j < |s| ==> s[i] != s[j]
  }

  /** The synonym loop keeps the list as a prefix, adds exactly the missing
      synonyms and never a duplicate. */
  lemma {:induction false} AddSynonymsProps(list: seq<string>, synonyms: seq<string>)
    requires Distinct(list)
    ensures var r := AddSynonyms(list, synonyms);
      && Distinct(r) && |r| >= |list| && r[..|list|] == list
      && forall x :: x in r <==> x in list || x in synonyms
    decreases |synonyms|
  {
    if |synonyms| > 0 {
      var init := synonyms[..|synonyms| - 1];
      AddSynonymsProps(list, init);
      var before := AddSynonyms(list, init);
      assert forall x :: x in synonyms <==> x in init || x == synonyms[|synonyms| - 1];
      assert (before + [synonyms[|synonyms| - 1]])[..|list|] == before[..|list|];
    }
  }

  /** Every gene's synonym list starts with the gene and holds no
      duplicate. */
  ghost predicate SynonymsWellFormed(geneSyn: Lists) {
    forall g :: g in geneSyn ==> |geneSyn[g]| >= 1 && geneSyn[g][0] == g && Distinct(geneSyn[g])
  }

  lemma {:induction false} GoAnnSynonyms(lines: seq<string>)
    requires GoAnnLines(lines).Ok?
    ensures SynonymsWellFormed(GoAnnLines(lines).value.geneSyn)
    decreases |lines|
  {
    if |lines| > 0 {
      GoAnnSynonyms(lines[..|lines| - 1]);
      GoAnnLineSynonyms(GoAnnLines(lines[..|lines| - 1]).value, lines[|lines| - 1]);
    }
  }

  /** One line keeps the synonym lists well formed. */
  lemma GoAnnLineSynonyms(acc: GoAnnotations, line: string)
    requires SynonymsWellFormed(acc.geneSyn) && GoAnnLine(acc, line).Ok?
    ensures SynonymsWellFormed(GoAnnLine(acc, line).value.geneSyn)
  {
    var cols := Split(line, '\t');
    if !StartsWith(line, "!") && Contains(cols[3], "NOT") {
      SynonymsAdded(acc.geneSyn, cols[2], Split(cols[10], '|'));
    }
  }

  lemma SynonymsAdded(geneSyn: Lists, gene: string, synonyms: seq<string>)
    requires SynonymsWellFormed(geneSyn)
    ensures var base := if gene in geneSyn then geneSyn[gene] else [gene];
      SynonymsWellFormed(geneSyn[gene := AddSynonyms(base, synonyms)])
  {
    var base := if gene in geneSyn then geneSyn[gene] else [gene];
    AddSynonymsProps(base, synonyms);
    assert base[..1] == [gene];
  }

  /** A kept line adds its term to exactly one of the three term maps,
      chosen by the first of `P` and `F` its namespace holds, and leaves the
      other two alone. */
  lemma GoAnnRouting(acc: GoAnnotations, line: string)
    requires !StartsWith(line, "!")
    requires var cols := Split(line, '\t'); |cols| >= 11 && Contains(cols[3], "NOT")
    ensures var cols := Split(line, '\t');
      var gene := cols[2];
      var term := cols[4];
      var ns := cols[8];
      var r := GoAnnLine(acc, line);
      && r.Ok?
      && (Contains(ns, "P") ==> r.value.bp == Append(acc.bp, gene, term) && r.value.mf == acc.mf && r.value.cc == acc.cc)
      && (!Contains(ns, "P") && Contains(ns, "F") ==>
            r.value.mf == Append(acc.mf, gene, term) && r.value.bp == acc.bp && r.value.cc == acc.cc)
      && (!Contains(ns, "P") && !Contains(ns, "F") ==>
            r.value.cc == Append(acc.cc, gene, term) && r.value.bp == acc.bp && r.value.mf == acc.mf)
  {
  }

  /** A comment line, and a line whose fourth column lacks `NOT`, change
      nothing; a line with fewer than three tabs raises `IndexError`, and so
      does a kept line with fewer than eleven columns. */
  lemma GoAnnSkipped(acc: GoAnnotations, line: string)
    ensures StartsWith(line, "!") ==> GoAnnLine(acc, line) == Ok(acc)
    ensures !StartsWith(line, "!") && Occurrences(line, '\t') < 3 ==> GoAnnLine(acc, line) == Err(IndexError)
    ensures !StartsWith(line, "!") && |Split(line, '\t')| >= 4 && !Contains(Split(line, '\t')[3], "NOT") ==>
      GoAnnLine(acc, line) == Ok(acc)
    ensures !StartsWith(line, "!") && 4 <= |Split(line, '\t')| < 11 && Contains(Split(line, '\t')[3], "NOT") ==>
      GoAnnLine(acc, line) == Err(IndexError)
  {
    SplitPieces(line, '\t');
  }
}
