/** The reply to the lookup command: the embed built from one resolution.
    Its title and description, five labelled fields, and the operative
    clauses with the conclusion as one text split into field-sized chunks. */
module Render {
  import opened Wrappers
  import opened Text
  import opened Resolutions

  /** The em dash shown for a missing field. */
  const Dash := "\U{2014}"

  /** The most characters one embed field value holds. */
  const FieldLimit := 1024

  const ConclusionHeading := "**Conclusion**"

  datatype Field = Field(name: string, value: string, inline: bool)

  datatype Embed = Embed(title: string, description: string, fields: seq<Field>)

  /** The embed title: the record's title, or `"Case " + caseNumber` when the
      title is missing or empty. */
  function Title(res: Resolution): (r: string)
    ensures r != ""
    ensures res.title.Some? && res.title.value != "" ==> r == res.title.value
    ensures res.title.None? || res.title.value == "" ==> r == "Case " + res.caseNumber
  {
    match res.title
    case Some(t) => if t != "" then t else "Case " + res.caseNumber
    case None => "Case " + res.caseNumber
  }

  /** The signatories joined by `", "`, or the dash when that join is empty,
      which happens exactly for no signatories or one empty one. */
  function SignatoryLine(res: Resolution): (r: string)
    ensures r != ""
    ensures var names := res.signatories.GetOr([]);
            (names == [] || names == [""]) ==> r == Dash
    ensures var names := res.signatories.GetOr([]);
            !(names == [] || names == [""]) ==> r == Join(names, ", ")
  {
    var names := res.signatories.GetOr([]);
    JoinEmpty(names, ", ");
    var joined := Join(names, ", ");
    if joined == "" then Dash else joined
  }

  /** Each clause prefixed with its 1-based position, a full stop and a space. */
  function NumberedLines(clauses: seq<string>): (r: seq<string>)
    ensures |r| == |clauses|
    ensures forall i :: 0 <= i < |r| ==> r[i] == NatToString(i + 1) + ". " + clauses[i]
    ensures forall i :: 0 <= i < |r| ==> ('\n' in r[i] <==> '\n' in clauses[i])
  {
    seq(|clauses|, i requires 0 <= i < |clauses| => NatToString(i + 1) + ". " + clauses[i])
  }

  /** The numbered clauses, one per line, then a blank line, the conclusion
      heading and the conclusion. */
  function ClauseText(clauses: seq<string>, conclusion: string): (r: string)
    ensures |r| > 0
  {
    Join(NumberedLines(clauses), "\n") + "\n\n" + ConclusionHeading + "\n" + conclusion
  }

  /** For every clause list and conclusion, the clause text is the `"\n"`-join
      of the numbered clauses (one empty line when there are none), a blank
      line, the heading and the conclusion. */
  lemma ClauseTextJoin(clauses: seq<string>, conclusion: string)
    ensures ClauseText(clauses, conclusion)
            == Join((if clauses == [] then [""] else NumberedLines(clauses))
                    + ["", ConclusionHeading, conclusion], "\n")
  {
    var numbered := NumberedLines(clauses);
    var first := if clauses == [] then [""] else numbered;
    var tail := ["", ConclusionHeading, conclusion];
    assert Join(first, "\n") == Join(numbered, "\n");
    JoinAppend(first, tail, "\n");
    assert tail[1..] == [ConclusionHeading, conclusion] && tail[1..][1..] == [conclusion];
    assert Join(tail[1..], "\n") == ConclusionHeading + "\n" + conclusion;
    assert Join(tail, "\n") == "\n" + ConclusionHeading + "\n" + conclusion;
  }

  /** Read back line by line, the clause text gives each numbered clause on
      its own line (an empty first line when there are no clauses), a blank
      line, the heading and the conclusion -- provided no clause and not the
      conclusion holds a line break of its own. */
  lemma ClauseTextLines(clauses: seq<string>, conclusion: string)
    requires forall i :: 0 <= i < |clauses| ==> '\n' !in clauses[i]
    requires '\n' !in conclusion
    ensures Split(ClauseText(clauses, conclusion), '\n')
            == (if clauses == [] then [""] else NumberedLines(clauses))
               + ["", ConclusionHeading, conclusion]
  {
    var numbered := NumberedLines(clauses);
    var first := if clauses == [] then [""] else numbered;
    var tail := ["", ConclusionHeading, conclusion];
    var lines := first + tail;
    ClauseTextJoin(clauses, conclusion);
    forall i | 0 <= i < |lines| ensures '\n' !in lines[i] {
      if i < |first| && clauses != [] {
        assert lines[i] == NatToString(i + 1) + ". " + clauses[i];
      }
    }
    SplitJoin(lines, '\n');
  }

  function Concat(parts: seq<string>): string
  {
    if parts == [] then "" else parts[0] + Concat(parts[1..])
  }

  /** The text cut into consecutive slices of `FieldLimit` characters, the
      last one holding whatever remains. */
  function Chunks(text: string): (r: seq<string>)
    ensures Concat(r) == text
    ensures forall i :: 0 <= i < |r| ==> 0 < |r[i]| <= FieldLimit
    ensures forall i :: 0 <= i < |r| - 1 ==> |r[i]| == FieldLimit
    ensures |r| == (|text| + FieldLimit - 1) / FieldLimit
    decreases |text|
  {
    if text == [] then []
    else if |text| <= FieldLimit then [text]
    else
      var rest := Chunks(text[FieldLimit..]);
      assert text == text[..FieldLimit] + text[FieldLimit..];
      [text[..FieldLimit]] + rest
  }

  function FieldName(i: nat): (r: string)
    ensures r == "Operative Clauses" <==> i == 0
    ensures r == "Continued" <==> i > 0
  {
    if i == 0 then "Operative Clauses" else "Continued"
  }

  /** One field per chunk: the first named "Operative Clauses", the others
      "Continued", none inline. */
  function ChunkFields(chunks: seq<string>): (r: seq<Field>)
    ensures Values(r) == chunks
    ensures forall i :: 0 <= i < |r| ==> r[i].name == FieldName(i) && !r[i].inline
  {
    var r := seq(|chunks|, i requires 0 <= i < |chunks| => Field(FieldName(i), chunks[i], false));
    assert Values(r) == chunks;
    r
  }

  function Values(fields: seq<Field>): (r: seq<string>)
    ensures |r| == |fields| && forall i :: 0 <= i < |r| ==> r[i] == fields[i].value
  {
    seq(|fields|, i requires 0 <= i < |fields| => fields[i].value)
  }

  /** The clause fields of the embed: the chunks when the text is longer than
      `FieldLimit`, otherwise one field with the whole text. Either way the
      values spell the text back, each fits in a field, and the count is the
      number of chunks the text needs. */
  function ClauseFields(text: string): (r: seq<Field>)
    requires text != ""
    ensures |r| == (|text| + FieldLimit - 1) / FieldLimit
    ensures Concat(Values(r)) == text
    ensures forall i :: 0 <= i < |r| ==> 0 < |r[i].value| <= FieldLimit && !r[i].inline
    ensures r[0].name == "Operative Clauses"
    ensures forall i :: 0 < i < |r| ==> r[i].name == "Continued"
  {
    if |text| > FieldLimit then
      var chunks := Chunks(text);
      assert Values(ChunkFields(chunks)) == chunks;
      ChunkFields(chunks)
    else
      assert Values([Field(FieldName(0), text, false)]) == [text];
      [Field(FieldName(0), text, false)]
  }

  /** The length test is only a shortcut: a non-empty text of at most
      `FieldLimit` characters is its own single chunk, so the clause fields
      always carry exactly the chunks. */
  lemma ClauseFieldsAreChunks(text: string)
    requires text != ""
    ensures Values(ClauseFields(text)) == Chunks(text)
  {
    if |text| > FieldLimit {
      assert Values(ChunkFields(Chunks(text))) == Chunks(text);
    } else {
      assert Values([Field(FieldName(0), text, false)]) == [text];
    }
  }

  /** The operative-clause text of a record, with its defaults: no clauses,
      and the dash for a missing conclusion. */
  function RecordClauseText(res: Resolution): (r: string)
    ensures res.operativeClauses.None? ==> r == ClauseText([], res.conclusion.GetOr(Dash))
    ensures res.conclusion.None? ==> r == ClauseText(res.operativeClauses.GetOr([]), Dash)
    ensures res.operativeClauses.Some? && res.conclusion.Some? ==>
              r == ClauseText(res.operativeClauses.value, res.conclusion.value)
  {
    ClauseText(res.operativeClauses.GetOr([]), res.conclusion.GetOr(Dash))
  }

  /** The embed of the lookup command, built by successive `add_field` calls. */
  method BuildEmbed(res: Resolution) returns (e: Embed)
    ensures e.title == Title(res)
    ensures e.description == res.preamble.GetOr(Dash)
    ensures |e.fields| > 5
    ensures e.fields[0] == Field("Case Number", res.caseNumber, true)
    ensures e.fields[1] == Field("Type", res.kind.GetOr(Dash), true)
    ensures e.fields[2] == Field("Submitted By", res.submittedBy.GetOr(Dash), true)
    ensures e.fields[3] == Field("Date", res.date.GetOr(Dash), true)
    ensures e.fields[4] == Field("Signatories", SignatoryLine(res), false)
    ensures e.fields[5..] == ClauseFields(RecordClauseText(res))
  {
    var fields: seq<Field> := [];
    fields := fields + [Field("Case Number", res.caseNumber, true)];
    fields := fields + [Field("Type", res.kind.GetOr(Dash), true)];
    fields := fields + [Field("Submitted By", res.submittedBy.GetOr(Dash), true)];
    fields := fields + [Field("Date", res.date.GetOr(Dash), true)];
    fields := fields + [Field("Signatories", SignatoryLine(res), false)];
    ghost var header := fields;
    var text := RecordClauseText(res);
    if |text| > FieldLimit {
      var chunks := Chunks(text);
      for i := 0 to |chunks|
        invariant |fields| == 5 + i && fields[..5] == header
        invariant forall k :: 0 <= k < i ==> fields[5 + k] == Field(FieldName(k), chunks[k], false)
      {
        fields := fields + [Field(FieldName(i), chunks[i], false)];
      }
      assert fields[5..] == ChunkFields(chunks);
    } else {
      fields := fields + [Field(FieldName(0), text, false)];
    }
    e := Embed(Title(res), res.preamble.GetOr(Dash), fields);
  }
}
