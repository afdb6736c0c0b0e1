/** `extract_candidate_name` and `parse_resume`. PDF text extraction is
    outside the model: its output (text, or `None` on failure) is an input.
    spaCy's entity recogniser is the parameter `ner`, giving the entities of
    a text in document order. */
module ResumeParser {
  import opened Wrappers
  import opened Text
  import opened Utils

  const UnknownName: string := "Unknown"

  /** Longest PERSON entity, in words, accepted as a name. */
  const MaxNameWords: nat := 4

  datatype Entity = Entity(kind: string, text: string)

  datatype ParsedResume = ParsedResume(filename: string, text: Option<string>, name: string)

  /** An entity that may be taken as the candidate's name. */
  predicate IsNameEntity(e: Entity) {
    e.kind == "PERSON" && CountTokens(e.text) <= MaxNameWords
  }

  /** `ents[i]` is the first name entity of `ents`. */
  predicate IsFirstNameEntity(ents: seq<Entity>, i: int) {
    0 <= i < |ents| && IsNameEntity(ents[i]) && forall j :: 0 <= j < i ==> !IsNameEntity(ents[j])
  }

  /** `lines[i]` is the first line of `lines` that is not blank. */
  predicate IsFirstNonBlank(lines: seq<string>, i: int) {
    0 <= i < |lines| && !AllSpace(lines[i]) && forall j :: 0 <= j < i ==> AllSpace(lines[j])
  }

  /** The stripped text of the first name entity, if any. */
  function FirstNameEntity(ents: seq<Entity>): (r: Option<string>)
    ensures r.None? <==> forall i :: 0 <= i < |ents| ==> !IsNameEntity(ents[i])
    ensures r.Some? ==> exists i :: IsFirstNameEntity(ents, i) && r.value == Strip(ents[i].text)
  {
    if |ents| == 0 then None
    else if IsNameEntity(ents[0]) then Some(Strip(ents[0].text))
    else
      var r := FirstNameEntity(ents[1..]);
      NameEntityAfterOther(ents);
      r
  }

  /** Past a first entity that is not a name, the first name entity is
      found in the rest. */
  lemma NameEntityAfterOther(ents: seq<Entity>)
    requires |ents| > 0 && !IsNameEntity(ents[0])
    ensures forall i :: IsFirstNameEntity(ents[1..], i) ==> IsFirstNameEntity(ents, i + 1)
    ensures (forall i :: 0 <= i < |ents| - 1 ==> !IsNameEntity(ents[1..][i])) ==>
              forall i :: 0 <= i < |ents| ==> !IsNameEntity(ents[i])
  {
    assert forall i :: 1 <= i < |ents| ==> ents[i] == ents[1..][i - 1];
  }

  /** The first line that is not blank, stripped. */
  function FirstNonBlankLine(lines: seq<string>): (r: Option<string>)
    ensures r.None? <==> forall i :: 0 <= i < |lines| ==> AllSpace(lines[i])
    ensures r.Some? ==> exists i :: IsFirstNonBlank(lines, i) && r.value == Strip(lines[i])
  {
    if |lines| == 0 then None
    else if !AllSpace(lines[0]) then Some(Strip(lines[0]))
    else
      var r := FirstNonBlankLine(lines[1..]);
      NonBlankAfterBlank(lines);
      r
  }

  /** Past a blank first line, the first non-blank line is found in the rest. */
  lemma NonBlankAfterBlank(lines: seq<string>)
    requires |lines| > 0 && AllSpace(lines[0])
    ensures forall i :: IsFirstNonBlank(lines[1..], i) ==> IsFirstNonBlank(lines, i + 1)
    ensures (forall i :: 0 <= i < |lines| - 1 ==> AllSpace(lines[1..][i])) ==>
              forall i :: 0 <= i < |lines| ==> AllSpace(lines[i])
  {
    assert forall i :: 1 <= i < |lines| ==> lines[i] == lines[1..][i - 1];
  }

  /** `extract_candidate_name(text)`: "Unknown" for missing or empty text;
      otherwise the first PERSON entity of at most four words, stripped;
      failing that the first non-blank line, stripped; failing that
      "Unknown". */
  function ExtractCandidateName(text: Option<string>, ner: string -> seq<Entity>): (name: string)
    ensures text.None? || text == Some("") ==> name == UnknownName
    ensures text.Some? && text.value != "" ==>
      var ents := ner(text.value);
      var lines := SplitOn(text.value, '\n');
      && (forall i :: IsFirstNameEntity(ents, i) ==> name == Strip(ents[i].text))
      && ((forall i :: 0 <= i < |ents| ==> !IsNameEntity(ents[i])) ==>
            && (forall i :: IsFirstNonBlank(lines, i) ==> name == Strip(lines[i]))
            && ((forall i :: 0 <= i < |lines| ==> AllSpace(lines[i])) ==> name == UnknownName))
    ensures name == UnknownName || IsStripped(name)
  {
    match text
    case None => UnknownName
    case Some(t) =>
      if t == "" then UnknownName
      else
        match FirstNameEntity(ner(t))
        case Some(person) => person
        case None =>
          match FirstNonBlankLine(SplitOn(t, '\n'))
          case Some(line) => line
          case None => UnknownName
  }

  /** `parse_resume(uploaded_file)`, given the file name and what PDF text
      extraction returned for it. */
  function ParseResume(filename: string, extracted: Option<string>, ner: string -> seq<Entity>): (r: ParsedResume)
    ensures r.filename == filename
    ensures extracted.None? || extracted == Some("") ==> r.text.None? && r.name == UnknownName
    ensures extracted.Some? && extracted.value != "" ==>
      r.text == extracted && r.name == ExtractCandidateName(extracted, ner)
  {
    if extracted.None? || extracted.value == "" then ParsedResume(filename, None, UnknownName)
    else ParsedResume(filename, extracted, ExtractCandidateName(extracted, ner))
  }

  /** A readable resume is never empty. */
  lemma ParsedTextNonEmpty(filename: string, extracted: Option<string>, ner: string -> seq<Entity>)
    ensures ParseResume(filename, extracted, ner).text.Some? ==>
      ParseResume(filename, extracted, ner).text.value != ""
  {
  }

  /** A PERSON entity longer than four words is passed over: with only such
      an entity the name comes from the text's first non-blank line. */
  lemma LongPersonSkipped(text: string, person: string, ner: string -> seq<Entity>)
    requires text != ""
    requires ner(text) == [Entity("PERSON", person)]
    requires CountTokens(person) > MaxNameWords
    requires !AllSpace(SplitOn(text, '\n')[0])
    ensures ExtractCandidateName(Some(text), ner) == Strip(SplitOn(text, '\n')[0])
  {
  }
}
