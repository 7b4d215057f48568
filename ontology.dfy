/** The two ontology readers: each walks the lines of an OBO file and
    records, for every term id, the ids listed on its `is_a:` lines. A file
    is a sequence of lines, each with its line terminator as Python's file
    iteration yields it. */
module OntologyParsing {
  import opened Results
  import opened Text

  /** Term id to the parent ids read for it, in file order. */
  type Parents = map<string, seq<string>>

  // ---------------------------------------------------------------------
  // hpo_parsing_onto

  datatype HpoState = HpoState(termsParents: Parents, curKey: string)

  /** What one line does to the reader's state. A line holding `[Term]`
      forgets the current key; an `is_a:` line looks up the current key's
      list (`KeyError` when the key has none), resets the parent's own list
      when the parent is not yet on it, and appends the parent; an `id:` line
      makes its id current and gives it an empty list unless it has one. */
  function HpoLine(st: HpoState, line: string): Result<HpoState> {
    if Contains(line, "[Term]") then
      Ok(st.(curKey := ""))
    else if StartsWith(line, "is_a:") then
      var parent := Slice(line, 6, 16);
      if st.curKey !in st.termsParents then Err(KeyError)
      else
        var tp := if parent !in st.termsParents[st.curKey] then st.termsParents[parent := []] else st.termsParents;
        Ok(st.(termsParents := tp[st.curKey := tp[st.curKey] + [parent]]))
    else if StartsWith(line, "id:") then
      var key := Slice(line, 4, 14);
      Ok(HpoState(if key in st.termsParents then st.termsParents else st.termsParents[key := []], key))
    else
      Ok(st)
  }

  /** The state after the given lines, from an empty map and key `''`. */
  function HpoLines(lines: seq<string>): Result<HpoState>
    decreases |lines|
  {
    if |lines| == 0 then Ok(HpoState(map[], ""))
    else
      match HpoLines(lines[..|lines| - 1])
      case Err(e) => Err(e)
      case Ok(st) => HpoLine(st, lines[|lines| - 1])
  }

  /** `hpo_parsing_onto` */
  method HpoParsingOnto(lines: seq<string>) returns (r: Result<Parents>)
    ensures r.Ok? <==> HpoLines(lines).Ok?
    ensures r.Ok? ==> r.value == HpoLines(lines).value.termsParents
    ensures r.Err? ==> r.error == KeyError
  {
    var termsParents: Parents := map[];
    var curKey := "";
    for i := 0 to |lines|
      invariant HpoLines(lines[..i]) == Ok(HpoState(termsParents, curKey))
    {
      var line := lines[i];
      assert lines[..i + 1][..i] == lines[..i];
      if Contains(line, "[Term]") {
        curKey := "";
      } else if StartsWith(line, "is_a:") {
        var curParent := Slice(line, 6, 16);
        if curKey !in termsParents {
          assert HpoLines(lines[..i + 1]).Err?;
          HpoErrPersists(lines[..i + 1], lines[i + 1..]);
          assert lines[..i + 1] + lines[i + 1..] == lines;
          return Err(KeyError);
        }
        if curParent !in termsParents[curKey] {
          termsParents := termsParents[curParent := []];
        }
        termsParents := termsParents[curKey := termsParents[curKey] + [curParent]];
      } else if StartsWith(line, "id:") {
        curKey := Slice(line, 4, 14);
        if curKey !in termsParents {
          termsParents := termsParents[curKey := []];
        }
      }
    }
    assert lines[..|lines|] == lines;
    r := Ok(termsParents);
  }

  /** Once a line has raised, the rest of the file is never read. */
  lemma {:induction false} HpoErrPersists(lines: seq<string>, rest: seq<string>)
    requires HpoLines(lines).Err?
    ensures HpoLines(lines + rest) == HpoLines(lines)
    decreases |rest|
  {
    if |rest| > 0 {
      var init := lines + rest[..|rest| - 1];
      HpoErrPersists(lines, rest[..|rest| - 1]);
      assert (lines + rest)[..|lines + rest| - 1] == init;
    } else {
      assert lines + rest == lines;
    }
  }

  /** Before the first `id:` line nothing is recorded and the key is `''`. */
  lemma {:induction false} HpoNoIdYet(prefix: seq<string>)
    requires HpoLines(prefix).Ok?
    requires forall k :: 0 <= k < |prefix| ==> !StartsWith(prefix[k], "id:")
    ensures HpoLines(prefix) == Ok(HpoState(map[], ""))
    decreases |prefix|
  {
    if |prefix| > 0 {
      var init := prefix[..|prefix| - 1];
      assert HpoLines(init).Ok?;
      HpoNoIdYet(init);
    }
  }

  /** An `is_a:` line before any `id:` line raises `KeyError`, whatever
      header lines come first and whatever follows: the current key is still
      `''`, which has no list. */
  lemma HpoIsABeforeId(prefix: seq<string>, line: string, rest: seq<string>)
    requires HpoLines(prefix).Ok?
    requires forall k :: 0 <= k < |prefix| ==> !StartsWith(prefix[k], "id:")
    requires StartsWith(line, "is_a:") && !Contains(line, "[Term]")
    ensures HpoLines(prefix + [line] + rest) == Err(KeyError)
  {
    HpoNoIdYet(prefix);
    assert HpoLines(prefix + [line]) == Err(KeyError) by {
      assert (prefix + [line])[..|prefix|] == prefix;
    }
    HpoErrPersists(prefix + [line], rest);
  }

  /** Every parent on a list has a list of its own. */
  ghost predicate HpoClosed(tp: Parents) {
    forall k, p :: k in tp && p in tp[k] ==> p in tp
  }

  lemma {:induction false} HpoLinesClosed(lines: seq<string>)
    requires HpoLines(lines).Ok?
    ensures HpoClosed(HpoLines(lines).value.termsParents)
    decreases |lines|
  {
    if |lines| > 0 {
      HpoLinesClosed(lines[..|lines| - 1]);
    }
  }

  /** Keys are never removed: every id on an `id:` line is a key of the
      result, and so is every parent id on an `is_a:` line. */
  lemma {:induction false} HpoKeysKept(lines: seq<string>, i: nat)
    requires HpoLines(lines).Ok? && i < |lines| && !Contains(lines[i], "[Term]")
    ensures StartsWith(lines[i], "id:") && !StartsWith(lines[i], "is_a:") ==>
      Slice(lines[i], 4, 14) in HpoLines(lines).value.termsParents
    ensures StartsWith(lines[i], "is_a:") ==> Slice(lines[i], 6, 16) in HpoLines(lines).value.termsParents
    decreases |lines|
  {
    var prefix := lines[..|lines| - 1];
    if i < |lines| - 1 {
      HpoKeysKept(prefix, i);
      assert prefix[i] == lines[i];
    } else {
      if |lines| > 1 {
        HpoLinesClosed(prefix);
      }
    }
  }

  /** An `is_a:` line appends the parent even when it is already listed, and
      when it was not listed the parent's own list is reset to empty. */
  lemma HpoIsA(st: HpoState, line: string)
    requires StartsWith(line, "is_a:") && !Contains(line, "[Term]")
    requires st.curKey in st.termsParents
    ensures var parent := Slice(line, 6, 16);
      && HpoLine(st, line).Ok?
      && HpoLine(st, line).value.curKey == st.curKey
      && var tp := HpoLine(st, line).value.termsParents;
      && (parent in st.termsParents[st.curKey] ==> tp[st.curKey] == st.termsParents[st.curKey] + [parent])
      && (parent !in st.termsParents[st.curKey] && parent != st.curKey ==>
            tp[parent] == [] && tp[st.curKey] == st.termsParents[st.curKey] + [parent])
      && (parent !in st.termsParents[st.curKey] && parent == st.curKey ==> tp[st.curKey] == [parent])
  {
  }

  /** An `id:` line keeps an existing list; a `[Term]` line changes no list. */
  lemma HpoIdAndTerm(st: HpoState, line: string)
    ensures Contains(line, "[Term]") ==> HpoLine(st, line) == Ok(HpoState(st.termsParents, ""))
    ensures !Contains(line, "[Term]") && StartsWith(line, "id:") && !StartsWith(line, "is_a:") ==>
      var key := Slice(line, 4, 14);
      && HpoLine(st, line).Ok?
      && HpoLine(st, line).value.curKey == key
      && key in HpoLine(st, line).value.termsParents
      && (key in st.termsParents ==> HpoLine(st, line).value.termsParents == st.termsParents)
  {
  }

  // ---------------------------------------------------------------------
  // parsing_go

  datatype GoState = GoState(termsParents: Parents, curParents: seq<string>, curKey: string, isObsolete: bool)

  /** What one line does to the reader's state, tested in this order: a
      line holding `Term` stores the collected parents under the current key
      unless the stanza is obsolete, then starts a new stanza with key `''`;
      an `id:` line makes its id current with an empty list unless it has
      one; a line holding `is_obsolete` marks the stanza and removes the
      current key's entry (`KeyError` when it has none) unless the key is
      `''`; an `is_a:` line outside an obsolete stanza collects a parent. */
  function GoLine(st: GoState, line: string): Result<GoState> {
    if Contains(line, "Term") then
      Ok(GoState(if !st.isObsolete then st.termsParents[st.curKey := st.curParents] else st.termsParents, [], "", false))
    else if StartsWith(line, "id:") then
      var key := Slice(line, 4, 14);
      Ok(st.(termsParents := if key in st.termsParents then st.termsParents else st.termsParents[key := []], curKey := key))
    else if Contains(line, "is_obsolete") then
      if st.curKey == "" then Ok(st.(isObsolete := true))
      else if st.curKey !in st.termsParents then Err(KeyError)
      else Ok(st.(termsParents := st.termsParents - {st.curKey}, isObsolete := true))
    else if StartsWith(line, "is_a:") && !st.isObsolete then
      Ok(st.(curParents := st.curParents + [Slice(line, 6, 16)]))
    else
      Ok(st)
  }

  const GoStart := GoState(map[], [], "", false)

  /** The state after the given lines. */
  function GoLines(lines: seq<string>): Result<GoState>
    decreases |lines|
  {
    if |lines| == 0 then Ok(GoStart)
    else
      match GoLines(lines[..|lines| - 1])
      case Err(e) => Err(e)
      case Ok(st) => GoLine(st, lines[|lines| - 1])
  }

  /** `parsing_go`: the collected parents of the last stanza are never
      stored, as no `Term` line follows it. */
  method ParsingGo(lines: seq<string>) returns (r: Result<Parents>)
    ensures r.Ok? <==> GoLines(lines).Ok?
    ensures r.Ok? ==> r.value == GoLines(lines).value.termsParents
    ensures r.Err? ==> r.error == KeyError
  {
    var termsParents: Parents := map[];
    var curParents: seq<string> := [];
    var curKey := "";
    var isObsolete := false;
    for i := 0 to |lines|
      invariant GoLines(lines[..i]) == Ok(GoState(termsParents, curParents, curKey, isObsolete))
    {
      var line := lines[i];
      assert lines[..i + 1][..i] == lines[..i];
      if Contains(line, "Term") {
        if !isObsolete {
          termsParents := termsParents[curKey := curParents];
        }
        curParents := [];
        curKey := "";
        isObsolete := false;
      } else if StartsWith(line, "id:") {
        curKey := Slice(line, 4, 14);
        if curKey !in termsParents {
          termsParents := termsParents[curKey := []];
        }
      } else if Contains(line, "is_obsolete") {
        isObsolete := true;
        if curKey != "" {
          if curKey !in termsParents {
            assert GoLines(lines[..i + 1]).Err?;
            GoErrPersists(lines[..i + 1], lines[i + 1..]);
            assert lines[..i + 1] + lines[i + 1..] == lines;
            return Err(KeyError);
          }
          termsParents := termsParents - {curKey};
        }
      } else if StartsWith(line, "is_a:") && !isObsolete {
        curParents := curParents + [Slice(line, 6, 16)];
      }
    }
    assert lines[..|lines|] == lines;
    r := Ok(termsParents);
  }

  lemma {:induction false} GoErrPersists(lines: seq<string>, rest: seq<string>)
    requires GoLines(lines).Err?
    ensures GoLines(lines + rest) == GoLines(lines)
    decreases |rest|
  {
    if |rest| > 0 {
      var init := lines + rest[..|rest| - 1];
      GoErrPersists(lines, rest[..|rest| - 1]);
      assert (lines + rest)[..|lines + rest| - 1] == init;
    } else {
      assert lines + rest == lines;
    }
  }

  /** A line that holds neither `Term` nor `is_obsolete` and starts with
      neither `id:` nor `is_a:` changes nothing. */
  ghost predicate GoNeutral(line: string) {
    !Contains(line, "Term") && !Contains(line, "is_obsolete") && !StartsWith(line, "id:") && !StartsWith(line, "is_a:")
  }

  lemma {:induction false} GoNeutralPrefix(prefix: seq<string>)
    requires forall k :: 0 <= k < |prefix| ==> GoNeutral(prefix[k])
    ensures GoLines(prefix) == Ok(GoStart)
    decreases |prefix|
  {
    if |prefix| > 0 {
      GoNeutralPrefix(prefix[..|prefix| - 1]);
    }
  }

  /** The first `Term` line of a file, after any header lines, stores an
      empty list under `''`. */
  lemma GoFirstTerm(prefix: seq<string>, line: string)
    requires forall k :: 0 <= k < |prefix| ==> GoNeutral(prefix[k])
    requires Contains(line, "Term")
    ensures GoLines(prefix + [line]) == Ok(GoState(map["" := []], [], "", false))
  {
    GoNeutralPrefix(prefix);
    assert (prefix + [line])[..|prefix|] == prefix;
  }

  /** A `Term` line wins over every other test, even on a line that also
      starts with `id:` or holds `is_obsolete`; it stores nothing after an
      obsolete stanza. */
  lemma GoTermFirst(st: GoState, line: string)
    requires Contains(line, "Term")
    ensures GoLine(st, line).Ok?
    ensures GoLine(st, line).value.curKey == "" && GoLine(st, line).value.curParents == []
    ensures !GoLine(st, line).value.isObsolete
    ensures st.isObsolete ==> GoLine(st, line).value.termsParents == st.termsParents
    ensures !st.isObsolete ==> GoLine(st, line).value.termsParents == st.termsParents[st.curKey := st.curParents]
  {
  }

  /** A second `is_obsolete` line in a stanza with an id removes a key that
      is already gone, which raises `KeyError`. */
  lemma GoDoubleObsolete(st: GoState, l1: string, l2: string)
    requires st.curKey != ""
    requires forall l :: l in [l1, l2] ==> Contains(l, "is_obsolete") && !Contains(l, "Term") && !StartsWith(l, "id:")
    ensures GoLine(st, l1).Err? || GoLine(GoLine(st, l1).value, l2) == Err(KeyError)
  {
    assert l1 in [l1, l2] && l2 in [l1, l2];
  }

  /** `is_a:` lines after `is_obsolete` collect nothing. */
  lemma GoObsoleteIgnoresIsA(st: GoState, line: string)
    requires st.isObsolete && StartsWith(line, "is_a:")
    requires !Contains(line, "Term") && !Contains(line, "is_obsolete")
    ensures GoLine(st, line) == Ok(st)
  {
    assert !StartsWith(line, "id:") by {
      assert line[..3] == "is_";
    }
  }

  /** No `Term` line follows the last stanza, so its parents are never
      stored: after any lines without `Term`, every entry is either an empty
      list given by an `id:` line or an entry already there before them. */
  lemma {:induction false} GoLastStanzaNotStored(prefix: seq<string>, tail: seq<string>)
    requires GoLines(prefix).Ok? && GoLines(prefix + tail).Ok?
    requires forall k :: 0 <= k < |tail| ==> !Contains(tail[k], "Term")
    ensures var before, after := GoLines(prefix).value.termsParents, GoLines(prefix + tail).value.termsParents;
      forall key :: key in after ==> after[key] == [] || (key in before && after[key] == before[key])
    decreases |tail|
  {
    if |tail| == 0 {
      assert prefix + tail == prefix;
    } else {
      var init := tail[..|tail| - 1];
      assert (prefix + tail)[..|prefix + tail| - 1] == prefix + init;
      assert GoLines(prefix + init).Ok?;
      GoLastStanzaNotStored(prefix, init);
    }
  }
}
