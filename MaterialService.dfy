/** The material-requirement extractor: cleans and decodes the text annotations of a BPMN document
    and collects, per task, the requirements of the annotations associated to it. */
module MaterialService {
  import opened Wrappers
  import opened Seqs
  import opened Strings
  import opened Bpmn
  import opened Materials

  const Nbsp: string := "&nbsp;"
  const NoBreakSpace: char := '\U{00A0}'
  const ByteOrderMark: char := '\U{FEFF}'

  // ---------------------------------------------------------------------------------------------
  // Cleaning the annotation text.

  /** The lines of `t`, each with its trailing whitespace removed, joined with LF. */
  function NormaliseLines(t: string): string
  {
    Join(TrimEndAll(Lines(t)), "\n")
  }

  /** `cleanInputText`, which the extractor applies to every annotation text: trim, replace the
      `&nbsp;` entity and U+00A0 by a space, delete U+FEFF, turn CR LF into LF, then trim the end of
      every line. The result holds no U+00A0, no U+FEFF and no CR, and no line of it ends in
      whitespace. Deleting U+FEFF after the entity has been replaced can join the pieces of a split
      entity into a new `&nbsp;` (see `CleanInputTextAsWrittenLeavesEntity`). */
  function CleanInputTextAsWritten(text: string): (r: string)
    ensures NoBreakSpace !in r && ByteOrderMark !in r && '\r' !in r
    ensures forall k :: 0 <= k < |Lines(r)| ==> EndsTrimmed(Lines(r)[k])
  {
    var r := NormaliseLines(ReplacedAsWritten(Trim(text)));
    AsWrittenPipeline(Trim(text), r);
    r
  }

  /** The character replacements of `cleanInputText`, in the order written. */
  function ReplacedAsWritten(t: string): string
  {
    var a := ReplaceAll(t, Nbsp, " ");
    var b := ReplaceAll(a, [NoBreakSpace], " ");
    var c := ReplaceAll(b, [ByteOrderMark], "");
    ReplaceAll(c, "\r\n", "\n")
  }

  /** The guarantees of `CleanInputTextAsWritten`, for any text `t` put through its replacements. */
  lemma AsWrittenPipeline(t: string, r: string)
    requires r == NormaliseLines(ReplacedAsWritten(t))
    ensures NoBreakSpace !in r && ByteOrderMark !in r
    ensures '\r' !in r
    ensures forall k :: 0 <= k < |Lines(r)| ==> EndsTrimmed(Lines(r)[k])
  {
    var a := ReplaceAll(t, Nbsp, " ");
    var b := ReplaceAll(a, [NoBreakSpace], " ");
    var c := ReplaceAll(b, [ByteOrderMark], "");
    var d := ReplaceAll(c, "\r\n", "\n");
    ReplaceCharRemoves(a, NoBreakSpace, " ");
    ReplaceCharRemoves(b, ByteOrderMark, "");
    ReplaceAllChars(b, [ByteOrderMark], "");
    ReplaceAllChars(c, "\r\n", "\n");
    assert NoBreakSpace !in d && ByteOrderMark !in d;
    NormalisedChars(d);
    CleanedLines(d);
  }

  /** The line normalisation adds no character other than LF and removes every CR. */
  lemma NormalisedChars(d: string)
    requires NoBreakSpace !in d && ByteOrderMark !in d
    ensures NoBreakSpace !in NormaliseLines(d) && ByteOrderMark !in NormaliseLines(d)
    ensures '\r' !in NormaliseLines(d)
  {
    LinesChars(d);
    var ls := TrimEndAll(Lines(d));
    assert forall k, x :: 0 <= k < |ls| && x in ls[k] ==> x in Lines(d)[k];
    JoinChars(ls, "\n");
  }

  /** The entity split by a U+FEFF, `&nb<U+FEFF>sp;`. */
  const SplitEntity: string := "&nb\U{FEFF}sp;"

  /** The text `&nb<U+FEFF>sp;` comes out of `CleanInputTextAsWritten` as the entity `&nbsp;`. */
  lemma CleanInputTextAsWrittenLeavesEntity()
    ensures CleanInputTextAsWritten(SplitEntity) == Nbsp
    ensures !Absent(Nbsp, CleanInputTextAsWritten(SplitEntity))
  {
    SplitEntityTrimmed();
    SplitEntitySurvivesReplacements();
    SplitEntityJoined();
    NormalisedEntity();
    assert OccursAt(Nbsp, Nbsp, 0);
  }

  lemma SplitEntityTrimmed()
    ensures Trim(SplitEntity) == SplitEntity
  {
    TrimOfSolidEnds(SplitEntity);
  }

  lemma SplitEntitySurvivesReplacements()
    ensures ReplaceAll(ReplaceAll(SplitEntity, Nbsp, " "), [NoBreakSpace], " ") == SplitEntity
  {
    var s := SplitEntity;
    assert s[..|Nbsp|] != Nbsp by { assert s[3] != Nbsp[3]; }
    assert ReplaceAll(s[1..], Nbsp, " ") == s[1..] by {
      assert '&' !in s[1..];
      ReplaceWithoutLead(s[1..], Nbsp, " ");
    }
    assert ReplaceAll(s, Nbsp, " ") == s;
    assert NoBreakSpace !in s;
    ReplaceWithoutLead(s, [NoBreakSpace], " ");
  }

  lemma SplitEntityJoined()
    ensures ReplaceAll(SplitEntity, [ByteOrderMark], "") == Nbsp
  {
    var head, mark, tail := "&nb", [ByteOrderMark], "sp;";
    assert SplitEntity == head + (mark + tail);
    ReplaceCharAppend(head, mark + tail, ByteOrderMark, "");
    ReplaceCharAppend(mark, tail, ByteOrderMark, "");
    ReplaceWithoutLead(head, mark, "");
    ReplaceWithoutLead(tail, mark, "");
    assert ReplaceAll(mark, mark, "") == [];
  }

  /** A single line without trailing whitespace is left as it is by the line normalisation. */
  lemma NormaliseSingleLine(l: string)
    requires '\r' !in l && '\n' !in l
    requires l == [] || !IsWhitespace(l[|l| - 1])
    ensures NormaliseLines(l) == l
  {
    LinesOfLine(l);
    assert TrimEnd(l) == l;
    assert TrimEndAll([l]) == [l];
  }

  lemma NormalisedEntity()
    ensures NormaliseLines(ReplaceAll(Nbsp, "\r\n", "\n")) == Nbsp
  {
    assert '\r' !in Nbsp && '\n' !in Nbsp;
    assert !IsWhitespace(Nbsp[|Nbsp| - 1]);
    ReplaceWithoutLead(Nbsp, "\r\n", "\n");
    NormaliseSingleLine(Nbsp);
  }

  /** `cleanInputText` with U+FEFF deleted first, so that no later step can form the entity. The
      result holds no U+00A0, no U+FEFF, no CR and no `&nbsp;`, and no line of it ends in
      whitespace. */
  function CleanInputText(text: string): (r: string)
    ensures NoBreakSpace !in r && ByteOrderMark !in r && '\r' !in r
    ensures Absent(Nbsp, r)
    ensures forall k :: 0 <= k < |Lines(r)| ==> EndsTrimmed(Lines(r)[k])
  {
    var r := NormaliseLines(Replaced(Trim(text)));
    CleanedPipeline(Trim(text), r);
    r
  }

  /** The character replacements of `CleanInputText`, in their order: U+FEFF removed, the entity
      and U+00A0 turned into a space, CR LF turned into LF. */
  function Replaced(t: string): string
  {
    var c := ReplaceAll(t, [ByteOrderMark], "");
    var a := ReplaceAll(c, Nbsp, " ");
    var b := ReplaceAll(a, [NoBreakSpace], " ");
    ReplaceAll(b, "\r\n", "\n")
  }

  /** The guarantees of `CleanInputText`, for any text `t` put through its replacement steps. */
  lemma CleanedPipeline(t: string, r: string)
    requires r == NormaliseLines(Replaced(t))
    ensures NoBreakSpace !in r && ByteOrderMark !in r
    ensures '\r' !in r
    ensures Absent(Nbsp, r)
    ensures forall k :: 0 <= k < |Lines(r)| ==> EndsTrimmed(Lines(r)[k])
  {
    var c := ReplaceAll(t, [ByteOrderMark], "");
    var a := ReplaceAll(c, Nbsp, " ");
    var b := ReplaceAll(a, [NoBreakSpace], " ");
    var d := ReplaceAll(b, "\r\n", "\n");
    ReplaceCharRemoves(t, ByteOrderMark, "");
    ReplaceAllRemovesPattern(c, Nbsp, " ");
    CleanedChars(c, a, b, d);
    CleanedAbsent(a, b, d);
    CleanedLines(d);
  }

  /** Which characters survive the replacements and the line normalisation. */
  lemma CleanedChars(c: string, a: string, b: string, d: string)
    requires ByteOrderMark !in c
    requires a == ReplaceAll(c, Nbsp, " ")
    requires b == ReplaceAll(a, [NoBreakSpace], " ")
    requires d == ReplaceAll(b, "\r\n", "\n")
    ensures NoBreakSpace !in NormaliseLines(d) && ByteOrderMark !in NormaliseLines(d)
    ensures '\r' !in NormaliseLines(d)
  {
    ReplaceAllChars(c, Nbsp, " ");
    ReplaceCharRemoves(a, NoBreakSpace, " ");
    ReplaceAllChars(a, [NoBreakSpace], " ");
    ReplaceAllChars(b, "\r\n", "\n");
    assert NoBreakSpace !in d && ByteOrderMark !in d;
    NormalisedChars(d);
  }

  /** Once the entity is replaced, no later step forms it again. */
  lemma CleanedAbsent(a: string, b: string, d: string)
    requires Absent(Nbsp, a)
    requires b == ReplaceAll(a, [NoBreakSpace], " ")
    requires d == ReplaceAll(b, "\r\n", "\n")
    ensures Absent(Nbsp, NormaliseLines(d))
  {
    ReplaceAllKeepsAbsent(a, [NoBreakSpace], " ", Nbsp);
    ReplaceAllKeepsAbsent(b, "\r\n", "\n", Nbsp);
    LinesKeepAbsent(d, Nbsp);
    var ls := TrimEndAll(Lines(d));
    forall k | 0 <= k < |ls|
      ensures Absent(Nbsp, ls[k])
    {
      AbsentInPrefix(Nbsp, Lines(d)[k], ls[k]);
    }
    JoinKeepsAbsent(ls, Nbsp);
  }

  /** The lines of the normalised text are the trimmed lines, so none ends in whitespace. */
  lemma CleanedLines(d: string)
    ensures forall k :: 0 <= k < |Lines(NormaliseLines(d))| ==> EndsTrimmed(Lines(NormaliseLines(d))[k])
  {
    var ls := TrimEndAll(Lines(d));
    forall k | 0 <= k < |ls|
      ensures '\r' !in ls[k] && '\n' !in ls[k]
    {
      assert ls[k] <= Lines(d)[k];
      assert forall x :: x in ls[k] ==> x in Lines(d)[k];
    }
    LinesOfJoin(ls);
    assert Lines(NormaliseLines(d)) == ls;
  }

  /** On a text without U+FEFF the corrected cleaning agrees with the cleaning as written. */
  lemma CleanInputTextAgreesWithoutByteOrderMark(text: string)
    requires ByteOrderMark !in text
    ensures CleanInputText(text) == CleanInputTextAsWritten(text)
  {
    var t := Trim(text);
    TrimChars(text);
    ReplaceWithoutLead(t, [ByteOrderMark], "");
    var a := ReplaceAll(t, Nbsp, " ");
    ReplaceAllChars(t, Nbsp, " ");
    var b := ReplaceAll(a, [NoBreakSpace], " ");
    ReplaceAllChars(a, [NoBreakSpace], " ");
    ReplaceWithoutLead(b, [ByteOrderMark], "");
  }

  // ---------------------------------------------------------------------------------------------
  // Decoding the annotation text.

  /** The two decoders of the annotation text, JSON and YAML. Each yields the decoded document or
      the message of the exception it raised. */
  datatype Parsers = Parsers(
    json: string -> Result<MaterialRequirements, string>,
    yaml: string -> Result<MaterialRequirements, string>)

  /** The exception `parseMaterialRequirements` raises when neither decoder accepts the text. */
  datatype MaterialError = IllegalArgument(message: string)

  /** The message of that exception, quoting both decoders' messages. */
  function ParseFailureMessage(jsonError: string, yamlError: string): string
  {
    "Failed to parse material requirements. Content must be valid JSON or YAML. "
    + "JSON error: " + jsonError + ", YAML error: " + yamlError
  }

  /** `parseMaterialRequirements`: JSON is tried first and wins whenever it succeeds; YAML is tried
      only after JSON fails; when both fail the error quotes both messages. */
  function ParseMaterialRequirements(p: Parsers, text: string): (r: Result<MaterialRequirements, MaterialError>)
    ensures p.json(text).Success? ==> r == Success(p.json(text).value)
    ensures p.json(text).Failure? && p.yaml(text).Success? ==> r == Success(p.yaml(text).value)
    ensures r.Failure? <==> p.json(text).Failure? && p.yaml(text).Failure?
    ensures r.Failure? ==> r.error == IllegalArgument(ParseFailureMessage(p.json(text).error, p.yaml(text).error))
  {
    match p.json(text)
    case Success(reqs) => Success(reqs)
    case Failure(jsonError) =>
      match p.yaml(text)
      case Success(reqs) => Success(reqs)
      case Failure(yamlError) => Failure(IllegalArgument(ParseFailureMessage(jsonError, yamlError)))
  }

  /** What one annotation contributes: nothing when it has no `text` child or when its cleaned text
      fails both decoders, otherwise the decoded document. */
  function Decoded(p: Parsers, a: TextAnnotation): Option<MaterialRequirements>
  {
    match a.text
    case None => None
    case Some(t) => ParseMaterialRequirements(p, CleanInputTextAsWritten(t)).ToOption()
  }

  /** No later entry with the key of `entries[i]` holds a value. */
  ghost predicate LastWithKey<V>(entries: seq<(string, Option<V>)>, i: int)
    requires 0 <= i < |entries|
  {
    forall j :: i < j < |entries| && entries[j].0 == entries[i].0 ==> entries[j].1.None?
  }

  /** Writing the entries that hold a value into a map, in order: a key is present exactly when
      some entry for it holds a value, and it keeps the value of the last such entry. */
  function LastWins<V>(entries: seq<(string, Option<V>)>): (m: map<string, V>)
    ensures forall id :: id in m <==> exists i :: 0 <= i < |entries| && entries[i].0 == id && entries[i].1.Some?
    ensures forall i :: 0 <= i < |entries| && entries[i].1.Some? && LastWithKey(entries, i) ==>
              entries[i].0 in m && m[entries[i].0] == entries[i].1.value
  {
    if entries == [] then map[]
    else
      var init, e := entries[..|entries| - 1], entries[|entries| - 1];
      var m := LastWins(init);
      assert forall i :: 0 <= i < |init| ==> init[i] == entries[i];
      if e.1.Some? then m[e.0 := e.1.value] else m
  }

  /** Each annotation's id with what it contributes, in document order. */
  function DecodedAnnotations(p: Parsers, anns: seq<TextAnnotation>): (r: seq<(string, Option<MaterialRequirements>)>)
    ensures |r| == |anns|
    ensures forall i :: 0 <= i < |anns| ==> r[i] == (anns[i].id, Decoded(p, anns[i]))
  {
    seq(|anns|, i requires 0 <= i < |anns| => (anns[i].id, Decoded(p, anns[i])))
  }

  /** The annotation map of the first pass: every annotation id whose text decodes, mapped to the
      document decoded from the last such annotation with that id. */
  function AnnotationRequirements(p: Parsers, anns: seq<TextAnnotation>): map<string, MaterialRequirements>
  {
    LastWins(DecodedAnnotations(p, anns))
  }

  /** An annotation id is in the map exactly when some annotation with that id decodes. */
  lemma AnnotationRequirementsDomain(p: Parsers, anns: seq<TextAnnotation>, id: string)
    ensures id in AnnotationRequirements(p, anns) <==>
              exists i :: 0 <= i < |anns| && anns[i].id == id && Decoded(p, anns[i]).Some?
  {
    var entries := DecodedAnnotations(p, anns);
    assert id in LastWins(entries) <==>
             exists i :: 0 <= i < |entries| && entries[i].0 == id && entries[i].1.Some?;
  }

  /** An id holds what the last annotation with that id that decodes was decoded to. */
  lemma AnnotationRequirementsValue(p: Parsers, anns: seq<TextAnnotation>, id: string, i: int)
    requires 0 <= i < |anns| && anns[i].id == id && Decoded(p, anns[i]).Some?
    requires forall j :: i < j < |anns| && anns[j].id == id ==> Decoded(p, anns[j]).None?
    ensures id in AnnotationRequirements(p, anns) && AnnotationRequirements(p, anns)[id] == Decoded(p, anns[i]).value
  {
    var entries := DecodedAnnotations(p, anns);
    assert LastWithKey(entries, i);
  }

  /** An annotation id is in the map exactly when some annotation with that id decodes, and it
      holds what the last such annotation decoded to. */
  lemma AnnotationRequirementsMeaning(p: Parsers, anns: seq<TextAnnotation>, id: string)
    ensures id in AnnotationRequirements(p, anns) <==>
              exists i :: 0 <= i < |anns| && anns[i].id == id && Decoded(p, anns[i]).Some?
    ensures forall i ::
              (0 <= i < |anns| && anns[i].id == id && Decoded(p, anns[i]).Some? &&
               forall j :: i < j < |anns| && anns[j].id == id ==> Decoded(p, anns[j]).None?) ==>
              id in AnnotationRequirements(p, anns) && AnnotationRequirements(p, anns)[id] == Decoded(p, anns[i]).value
  {
    AnnotationRequirementsDomain(p, anns, id);
    forall i | 0 <= i < |anns| && anns[i].id == id && Decoded(p, anns[i]).Some? &&
               forall j :: i < j < |anns| && anns[j].id == id ==> Decoded(p, anns[j]).None?
      ensures id in AnnotationRequirements(p, anns) && AnnotationRequirements(p, anns)[id] == Decoded(p, anns[i]).value
    {
      AnnotationRequirementsValue(p, anns, id, i);
    }
  }

  /** Taking one more entry into account writes its value, if it holds one, over the map so far. */
  lemma LastWinsStep<V>(entries: seq<(string, Option<V>)>, i: nat)
    requires i < |entries|
    ensures LastWins(entries[..i + 1])
         == if entries[i].1.Some? then LastWins(entries[..i])[entries[i].0 := entries[i].1.value] else LastWins(entries[..i])
  {
    assert entries[..i + 1][..i] == entries[..i];
  }

  /** The first pass over the annotations: a failing annotation is skipped and the others go on. */
  method ParseAnnotations(p: Parsers, anns: seq<TextAnnotation>) returns (m: map<string, MaterialRequirements>)
    ensures m == AnnotationRequirements(p, anns)
  {
    ghost var entries := DecodedAnnotations(p, anns);
    m := map[];
    for i := 0 to |anns|
      invariant m == LastWins(entries[..i])
    {
      LastWinsStep(entries, i);
      var a := anns[i];
      match a.text {
        case Some(textContent) =>
          var cleanedText := CleanInputTextAsWritten(textContent);
          var requirements := ParseMaterialRequirements(p, cleanedText);
          if requirements.Success? {
            m := m[a.id := requirements.value];
          }
        case None =>
      }
    }
    assert entries[..|anns|] == entries;
  }

  // ---------------------------------------------------------------------------------------------
  // Grouping by task.

  /** The `targetRef`s of the associations whose `sourceRef` is a decoded annotation, in document
      order. */
  function ContributingTargets(assocs: seq<Association>, annMap: map<string, MaterialRequirements>): seq<string>
  {
    if assocs == [] then []
    else
      var a := assocs[|assocs| - 1];
      ContributingTargets(assocs[..|assocs| - 1], annMap) + (if a.sourceRef in annMap then [a.targetRef] else [])
  }

  /** The requirements gathered for `task`: the lists of the annotations associated to it,
      concatenated in association order, duplicates kept. */
  function RequirementsFor(assocs: seq<Association>, annMap: map<string, MaterialRequirements>, task: string): seq<MaterialRequirement>
  {
    if assocs == [] then []
    else
      var a := assocs[|assocs| - 1];
      RequirementsFor(assocs[..|assocs| - 1], annMap, task)
      + (if a.sourceRef in annMap && a.targetRef == task then annMap[a.sourceRef].materialRequirements else [])
  }

  /** A task receives an entry exactly when some association leads to it from a decoded annotation. */
  lemma {:induction false} ContributingTargetsMembership(assocs: seq<Association>, annMap: map<string, MaterialRequirements>, task: string)
    ensures task in ContributingTargets(assocs, annMap) <==>
              exists i :: 0 <= i < |assocs| && assocs[i].targetRef == task && assocs[i].sourceRef in annMap
  {
    if assocs != [] {
      var init := assocs[..|assocs| - 1];
      ContributingTargetsMembership(init, annMap, task);
      assert forall i :: 0 <= i < |init| ==> init[i] == assocs[i];
      if exists i :: 0 <= i < |assocs| && assocs[i].targetRef == task && assocs[i].sourceRef in annMap {
        var i :| 0 <= i < |assocs| && assocs[i].targetRef == task && assocs[i].sourceRef in annMap;
        if i < |init| {
          assert init[i] == assocs[i];
        }
      }
    }
  }

  /** A requirement is listed for a task exactly when an annotation associated to the task lists it. */
  lemma {:induction false} RequirementsForMembership(
    assocs: seq<Association>, annMap: map<string, MaterialRequirements>, task: string, x: MaterialRequirement)
    ensures x in RequirementsFor(assocs, annMap, task) <==>
              exists i :: 0 <= i < |assocs| && assocs[i].targetRef == task && assocs[i].sourceRef in annMap &&
                x in annMap[assocs[i].sourceRef].materialRequirements
  {
    if assocs != [] {
      var init := assocs[..|assocs| - 1];
      RequirementsForMembership(init, annMap, task, x);
      assert forall i :: 0 <= i < |init| ==> init[i] == assocs[i];
      if exists i :: 0 <= i < |assocs| && assocs[i].targetRef == task && assocs[i].sourceRef in annMap &&
           x in annMap[assocs[i].sourceRef].materialRequirements {
        var i :| 0 <= i < |assocs| && assocs[i].targetRef == task && assocs[i].sourceRef in annMap &&
                 x in annMap[assocs[i].sourceRef].materialRequirements;
        if i < |init| {
          assert init[i] == assocs[i];
        }
      }
    }
  }

  /** A task no association contributes to has gathered nothing. */
  lemma {:induction false} NotContributedHasNothing(assocs: seq<Association>, annMap: map<string, MaterialRequirements>, task: string)
    requires task !in ContributingTargets(assocs, annMap)
    ensures RequirementsFor(assocs, annMap, task) == []
  {
    if assocs != [] {
      NotContributedHasNothing(assocs[..|assocs| - 1], annMap, task);
    }
  }

  /** The second pass, the `fold` with `getOrPut`/`addAll`: the keys, in insertion order, are the
      contributing tasks in order of first contribution, and each holds what was gathered for it. */
  method GroupByTask(assocs: seq<Association>, annMap: map<string, MaterialRequirements>)
    returns (keys: seq<string>, acc: map<string, seq<MaterialRequirement>>)
    ensures keys == Distinct(ContributingTargets(assocs, annMap))
    ensures forall t :: t in acc <==> t in keys
    ensures forall t :: t in acc ==> acc[t] == RequirementsFor(assocs, annMap, t)
  {
    keys, acc := [], map[];
    for i := 0 to |assocs|
      invariant keys == Distinct(ContributingTargets(assocs[..i], annMap))
      invariant forall t :: t in acc <==> t in keys
      invariant forall t :: t in acc ==> acc[t] == RequirementsFor(assocs[..i], annMap, t)
    {
      assert assocs[..i + 1][..i] == assocs[..i];
      var sourceRef, targetRef := assocs[i].sourceRef, assocs[i].targetRef;
      ghost var seen := ContributingTargets(assocs[..i], annMap);
      if sourceRef in annMap {
        assert ContributingTargets(assocs[..i + 1], annMap) == seen + [targetRef];
        DistinctSnoc(seen, targetRef);
        if targetRef !in acc {
          NotContributedHasNothing(assocs[..i], annMap, targetRef);
          keys := keys + [targetRef];
          acc := acc[targetRef := []];
        }
        acc := acc[targetRef := acc[targetRef] + annMap[sourceRef].materialRequirements];
      } else {
        assert ContributingTargets(assocs[..i + 1], annMap) == seen + [];
        assert seen + [] == seen;
      }
    }
    assert assocs[..|assocs|] == assocs;
  }

  // ---------------------------------------------------------------------------------------------
  // The whole extraction.

  /** `extractMaterialRequirements` on the document, or on nothing when the file could not be read
      or parsed (the catch-all then returns the empty list). One entry per contributing task, in
      order of first contribution, each with the requirements gathered for it. */
  method ExtractMaterialRequirements(p: Parsers, doc: Option<Document>) returns (result: seq<TaskMaterialRequirements>)
    ensures doc.None? ==> result == []
    ensures doc.Some? ==>
              var annMap := AnnotationRequirements(p, doc.value.annotations);
              var tasks := Distinct(ContributingTargets(doc.value.associations, annMap));
              && |result| == |tasks|
              && forall k :: 0 <= k < |result| ==>
                   result[k].taskId == tasks[k] &&
                   result[k].requirements == RequirementsFor(doc.value.associations, annMap, tasks[k])
  {
    result := [];
    if doc.None? {
      return;
    }
    var annotationRequirements := ParseAnnotations(p, doc.value.annotations);
    var keys, taskRequirementsMap := GroupByTask(doc.value.associations, annotationRequirements);
    result := ToTaskList(keys, taskRequirementsMap);
  }

  /** The final `forEach`: one entry per key of the grouped map, in key order. */
  method ToTaskList(keys: seq<string>, acc: map<string, seq<MaterialRequirement>>) returns (result: seq<TaskMaterialRequirements>)
    requires forall t :: t in keys ==> t in acc
    ensures |result| == |keys|
    ensures forall k :: 0 <= k < |keys| ==> result[k] == TaskMaterialRequirements(keys[k], acc[keys[k]])
  {
    result := [];
    for k := 0 to |keys|
      invariant |result| == k
      invariant forall j :: 0 <= j < k ==> result[j] == TaskMaterialRequirements(keys[j], acc[keys[j]])
    {
      result := result + [TaskMaterialRequirements(keys[k], acc[keys[k]])];
    }
  }

  /** Each task appears at most once in the extraction, and it appears exactly when some
      association leads to it from an annotation whose text decodes (even to an empty list). */
  lemma ExtractedTasks(p: Parsers, doc: Document, result: seq<TaskMaterialRequirements>, task: string)
    requires
      var annMap := AnnotationRequirements(p, doc.annotations);
      var tasks := Distinct(ContributingTargets(doc.associations, annMap));
      |result| == |tasks| && forall k :: 0 <= k < |result| ==> result[k].taskId == tasks[k]
    ensures forall j, k :: 0 <= j < k < |result| ==> result[j].taskId != result[k].taskId
    ensures (exists k :: 0 <= k < |result| && result[k].taskId == task) <==>
              exists i, n :: 0 <= i < |doc.associations| && 0 <= n < |doc.annotations| &&
                doc.associations[i].targetRef == task && doc.associations[i].sourceRef == doc.annotations[n].id &&
                Decoded(p, doc.annotations[n]).Some?
  {
    var annMap := AnnotationRequirements(p, doc.annotations);
    var tasks := Distinct(ContributingTargets(doc.associations, annMap));
    ContributingTargetsMembership(doc.associations, annMap, task);
    if exists k :: 0 <= k < |result| && result[k].taskId == task {
      var k :| 0 <= k < |result| && result[k].taskId == task;
      assert tasks[k] in tasks;
    }
    if task in tasks {
      var k :| 0 <= k < |tasks| && tasks[k] == task;
      assert result[k].taskId == task;
    }
  }
}
