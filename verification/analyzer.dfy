/**
 The upload handler of resumep.py, lines 112-144, without its user interface:
 every uploaded file's extraction result is either `None` (the PDF could not be
 read) or a text; the texts that Python considers true (present and
 non-empty) are collected in upload order, the model is asked only if there is
 at least one, and its answer is then split into a table.
 */
module ResumeAnalyzer {
  import opened Wrappers
  import opened ResumePrompt
  import opened MarkdownTable

  /** Python's `if text:` on an extraction result: present and non-empty. */
  predicate Usable(extracted: Option<string>) {
    extracted.Some? && extracted.value != ""
  }

  /** The usable texts, in upload order. */
  function UsableTexts(extracted: seq<Option<string>>): (texts: seq<string>)
    decreases |extracted|
  {
    if extracted == [] then []
    else
      var last := extracted[|extracted| - 1];
      UsableTexts(extracted[..|extracted| - 1]) + (if Usable(last) then [last.value] else [])
  }

  /** The extraction loop of resumep.py, lines 116-125. */
  method CollectTexts(extracted: seq<Option<string>>) returns (texts: seq<string>)
    ensures texts == UsableTexts(extracted)
  {
    texts := [];
    for k := 0 to |extracted|
      invariant texts == UsableTexts(extracted[..k])
    {
      assert extracted[..k + 1][..k] == extracted[..k];
      if Usable(extracted[k]) {
        texts := texts + [extracted[k].value];
      }
    }
    assert extracted[..|extracted|] == extracted;
  }

  /** Collecting a batch is collecting its parts one after the other: a file
      that cannot be read drops out without affecting any other file, and the
      order of the rest is kept. */
  lemma {:induction false} UsableTextsConcat(a: seq<Option<string>>, b: seq<Option<string>>)
    ensures UsableTexts(a + b) == UsableTexts(a) + UsableTexts(b)
    decreases |b|
  {
    if b == [] {
      assert a + b == a;
    } else {
      var b' := b[..|b| - 1];
      assert (a + b)[..|a + b| - 1] == a + b';
      assert (a + b)[|a + b| - 1] == b[|b| - 1];
      UsableTextsConcat(a, b');
    }
  }

  /** A file whose extraction failed or gave an empty text is skipped and
      the files before and after it are processed as if it were not there:
      one unreadable file out of three still leaves the other two. */
  lemma SkippedFileDropsOut(before: seq<Option<string>>, bad: Option<string>, after: seq<Option<string>>)
    requires !Usable(bad)
    ensures UsableTexts(before + [bad] + after) == UsableTexts(before) + UsableTexts(after)
  {
    calc {
      UsableTexts(before + [bad] + after);
      { UsableTextsConcat(before + [bad], after); }
      UsableTexts(before + [bad]) + UsableTexts(after);
      { UsableTextsConcat(before, [bad]); assert [bad][..0] == []; }
      UsableTexts(before) + [] + UsableTexts(after);
      { assert UsableTexts(before) + [] == UsableTexts(before); }
      UsableTexts(before) + UsableTexts(after);
    }
  }

  /** A text is collected exactly when some file's extraction produced it and
      it is non-empty. */
  lemma {:induction false} UsableTextsMembers(extracted: seq<Option<string>>, t: string)
    ensures t in UsableTexts(extracted) <==>
            exists i :: 0 <= i < |extracted| && extracted[i] == Some(t) && t != ""
    decreases |extracted|
  {
    if extracted != [] {
      var n := |extracted| - 1;
      var init := extracted[..n];
      UsableTextsMembers(init, t);
      if t in UsableTexts(extracted) {
        if t in UsableTexts(init) {
          var i :| 0 <= i < |init| && init[i] == Some(t) && t != "";
          assert extracted[i] == Some(t);
        } else {
          assert extracted[n] == Some(t) && t != "";
        }
      }
      if exists i :: 0 <= i < |extracted| && extracted[i] == Some(t) && t != "" {
        var i :| 0 <= i < |extracted| && extracted[i] == Some(t) && t != "";
        if i < n {
          assert init[i] == Some(t);
        }
      }
    }
  }

  /** Every collected text is non-empty, there are at most as many as files,
      and none at all exactly when no file gave a usable text. */
  lemma {:induction false} UsableTextsBounds(extracted: seq<Option<string>>)
    ensures forall j :: 0 <= j < |UsableTexts(extracted)| ==> UsableTexts(extracted)[j] != ""
    ensures |UsableTexts(extracted)| <= |extracted|
    ensures UsableTexts(extracted) == [] <==> forall i :: 0 <= i < |extracted| ==> !Usable(extracted[i])
    decreases |extracted|
  {
    if extracted != [] {
      var n := |extracted| - 1;
      var init := extracted[..n];
      UsableTextsBounds(init);
      forall i | 0 <= i < n ensures init[i] == extracted[i] { }
    }
  }

  /** What one press of "Generate Analysis" ends in. */
  datatype Outcome =
    | NothingExtracted
    | Analyzed(content: string, table: Table)

  /** The handler of resumep.py, lines 116-144: collect the usable texts; if
      there are none, stop without asking the model; otherwise ask it once
      with all of them and split its answer into a table. */
  method Analyze(extracted: seq<Option<string>>, llm: string -> Reply) returns (outcome: Outcome)
    ensures outcome.NothingExtracted? <==> UsableTexts(extracted) == []
    ensures outcome.Analyzed? ==>
              outcome.content == GenerateTable(UsableTexts(extracted), llm) &&
              ParsedFrom(outcome.table, outcome.content)
  {
    var texts := CollectTexts(extracted);
    if texts == [] {
      outcome := NothingExtracted;
    } else {
      var content := GenerateTable(texts, llm);
      var table := Parse(content);
      outcome := Analyzed(content, table);
    }
  }
}
