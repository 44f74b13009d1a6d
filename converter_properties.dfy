/**
 * Properties of the pairing step: how failures are reported, that targets past
 * the last source never matter, that the records follow the sources in order,
 * and that a document built from records converts back to those records.
 */
module ConverterProperties {
  import opened Wrappers
  import opened Converter

  // ---------------------------------------------------------------------------
  // Failure reports

  /** An explained position really cannot be paired. */
  lemma ExplainedIsUnpairable(nodes: TranslationNodes, e: ConversionError)
    requires ExplainsFailure(nodes, e)
    ensures !PairableAt(nodes, e.index)
  {
  }

  /** At most one error explains a given position: the three causes exclude
      each other. */
  lemma ExplanationUnique(nodes: TranslationNodes, e1: ConversionError, e2: ConversionError)
    requires ExplainsFailure(nodes, e1) && ExplainsFailure(nodes, e2)
    requires e1.index == e2.index
    ensures e1 == e2
  {
  }

  /** The conversion fails exactly at the first position that cannot be paired. */
  lemma FailsAtFirstUnpairable(nodes: TranslationNodes, i: nat)
    requires i < |nodes.sourceNodes| && !PairableAt(nodes, i)
    requires forall k :: 0 <= k < i ==> PairableAt(nodes, k)
    ensures GenerateContent(nodes).Failure?
    ensures GenerateContent(nodes).error.index == i
  {
    var r := GenerateContent(nodes);
    assert !Convertible(nodes);
    ExplainedIsUnpairable(nodes, r.error);
  }

  /** Any position that cannot be paired makes the conversion fail, at that
      position or an earlier one. */
  lemma UnpairableFails(nodes: TranslationNodes, i: nat)
    requires i < |nodes.sourceNodes| && !PairableAt(nodes, i)
    ensures GenerateContent(nodes).Failure?
    ensures GenerateContent(nodes).error.index <= i
  {
  }

  /** A source element without child nodes stops the conversion; when nothing
      before it fails, the error is that this source has no child. */
  lemma ChildlessSourceFails(nodes: TranslationNodes, i: nat)
    requires i < |nodes.sourceNodes| && nodes.sourceNodes[i].childNodes == []
    ensures GenerateContent(nodes).Failure?
    ensures GenerateContent(nodes).error.index <= i
    ensures GenerateContent(nodes).error.index == i ==>
      GenerateContent(nodes).error == SourceWithoutChild(i)
  {
    UnpairableFails(nodes, i);
  }

  /** A target element without child nodes, at a position that has a source,
      stops the conversion; the error names that target when nothing before it
      fails and its source has a child. */
  lemma ChildlessTargetFails(nodes: TranslationNodes, i: nat)
    requires i < |nodes.sourceNodes| && i < |nodes.targetNodes|
    requires nodes.targetNodes[i].childNodes == []
    ensures GenerateContent(nodes).Failure?
    ensures GenerateContent(nodes).error.index <= i
    ensures GenerateContent(nodes).error.index == i && |nodes.sourceNodes[i].childNodes| > 0 ==>
      GenerateContent(nodes).error == TargetWithoutChild(i)
  {
    UnpairableFails(nodes, i);
  }

  /** Fewer targets than sources always fails, no later than the first source
      without a target; when every earlier element has a child, the error is
      the missing target itself. */
  lemma FewerTargetsFail(nodes: TranslationNodes)
    requires |nodes.targetNodes| < |nodes.sourceNodes|
    ensures GenerateContent(nodes).Failure?
    ensures GenerateContent(nodes).error.index <= |nodes.targetNodes|
    ensures
      (forall k :: 0 <= k <= |nodes.targetNodes| ==> |nodes.sourceNodes[k].childNodes| > 0) &&
      (forall k :: 0 <= k < |nodes.targetNodes| ==> |nodes.targetNodes[k].childNodes| > 0)
      ==> GenerateContent(nodes).error == TargetMissing(|nodes.targetNodes|)
  {
    var n := |nodes.targetNodes|;
    assert !PairableAt(nodes, n);
    UnpairableFails(nodes, n);
    if (forall k :: 0 <= k <= n ==> |nodes.sourceNodes[k].childNodes| > 0) &&
       (forall k :: 0 <= k < n ==> |nodes.targetNodes[k].childNodes| > 0)
    {
      FailsAtFirstUnpairable(nodes, n);
      ExplanationUnique(nodes, GenerateContent(nodes).error, TargetMissing(n));
    }
  }

  // ---------------------------------------------------------------------------
  // Which inputs matter

  /** No source elements give no records, whatever the targets are. */
  lemma NoSourcesGiveNoRecords(targets: seq<Element>)
    ensures GenerateContent(TranslationNodes([], targets)) == Success([])
  {
  }

  lemma {:induction false} EntitiesFromAgree(n1: TranslationNodes, n2: TranslationNodes, i: nat)
    requires n1.sourceNodes == n2.sourceNodes && i <= |n1.sourceNodes|
    requires |n1.sourceNodes| <= |n1.targetNodes| && |n1.sourceNodes| <= |n2.targetNodes|
    requires n1.targetNodes[..|n1.sourceNodes|] == n2.targetNodes[..|n1.sourceNodes|]
    ensures EntitiesFrom(n1, i) == EntitiesFrom(n2, i)
    decreases |n1.sourceNodes| - i
  {
    if i < |n1.sourceNodes| {
      assert n1.targetNodes[i] == n1.targetNodes[..|n1.sourceNodes|][i];
      assert n1.targetNodes[i] == n2.targetNodes[i];
      EntitiesFromAgree(n1, n2, i + 1);
    }
  }

  /** Targets past the last source never affect the result: two target lists
      that agree on the positions that have a source convert alike. */
  lemma TargetsBeyondSourcesIgnored(sources: seq<Element>, t1: seq<Element>, t2: seq<Element>)
    requires |sources| <= |t1| && |sources| <= |t2|
    requires t1[..|sources|] == t2[..|sources|]
    ensures GenerateContent(TranslationNodes(sources, t1)) == GenerateContent(TranslationNodes(sources, t2))
  {
    EntitiesFromAgree(TranslationNodes(sources, t1), TranslationNodes(sources, t2), 0);
  }

  /** In particular, appending targets to a list that already covers every
      source changes nothing. */
  lemma ExtraTargetsIgnored(sources: seq<Element>, targets: seq<Element>, extra: seq<Element>)
    requires |sources| <= |targets|
    ensures GenerateContent(TranslationNodes(sources, targets + extra)) ==
            GenerateContent(TranslationNodes(sources, targets))
  {
    assert (targets + extra)[..|sources|] == targets[..|sources|];
    TargetsBeyondSourcesIgnored(sources, targets + extra, targets);
  }

  // ---------------------------------------------------------------------------
  // Order

  /** A convertible source list has at least as many targets as sources. */
  lemma ConvertibleCoversSources(nodes: TranslationNodes)
    requires Convertible(nodes)
    ensures |nodes.sourceNodes| <= |nodes.targetNodes|
  {
    if |nodes.sourceNodes| > 0 {
      assert PairableAt(nodes, |nodes.sourceNodes| - 1);
    }
  }

  /** Both parts of a split convertible source list are convertible, the
      second one against the targets after the first part. */
  lemma PartsConvertible(s1: seq<Element>, s2: seq<Element>, targets: seq<Element>)
    requires Convertible(TranslationNodes(s1 + s2, targets))
    ensures |s1| <= |targets|
    ensures Convertible(TranslationNodes(s1, targets))
    ensures Convertible(TranslationNodes(s2, targets[|s1|..]))
  {
    var wholeNodes := TranslationNodes(s1 + s2, targets);
    ConvertibleCoversSources(wholeNodes);
    forall i | 0 <= i < |s1| ensures PairableAt(TranslationNodes(s1, targets), i) {
      assert PairableAt(wholeNodes, i);
      assert (s1 + s2)[i] == s1[i];
    }
    forall i | 0 <= i < |s2| ensures PairableAt(TranslationNodes(s2, targets[|s1|..]), i) {
      assert PairableAt(wholeNodes, |s1| + i);
      assert (s1 + s2)[|s1| + i] == s2[i];
    }
  }

  /** The records of a convertible source list split where the sources split:
      the records of the first part come first, unchanged, followed by those of
      the second part paired with the remaining targets. */
  lemma SourcesConcat(s1: seq<Element>, s2: seq<Element>, targets: seq<Element>)
    requires Convertible(TranslationNodes(s1 + s2, targets))
    ensures |s1| <= |targets|
    ensures GenerateContent(TranslationNodes(s1 + s2, targets)).Success?
    ensures GenerateContent(TranslationNodes(s1, targets)).Success?
    ensures GenerateContent(TranslationNodes(s2, targets[|s1|..])).Success?
    ensures GenerateContent(TranslationNodes(s1 + s2, targets)).value ==
            GenerateContent(TranslationNodes(s1, targets)).value +
            GenerateContent(TranslationNodes(s2, targets[|s1|..])).value
  {
    PartsConvertible(s1, s2, targets);
    var whole := GenerateContent(TranslationNodes(s1 + s2, targets)).value;
    var first := GenerateContent(TranslationNodes(s1, targets)).value;
    var rest := GenerateContent(TranslationNodes(s2, targets[|s1|..])).value;
    forall i | 0 <= i < |whole| ensures whole[i] == (first + rest)[i] {
      if i < |s1| {
        assert (s1 + s2)[i] == s1[i];
        assert whole[i] == first[i];
      } else {
        assert (s1 + s2)[i] == s2[i - |s1|];
        assert targets[|s1|..][i - |s1|] == targets[i];
        assert whole[i] == rest[i - |s1|];
      }
    }
    assert whole == first + rest;
  }

  lemma {:induction false} EarlierFailureFrom(s1: seq<Element>, s2: seq<Element>, targets: seq<Element>, i: nat)
    requires i <= |s1|
    requires EntitiesFrom(TranslationNodes(s1, targets), i).Failure?
    ensures EntitiesFrom(TranslationNodes(s1 + s2, targets), i) == EntitiesFrom(TranslationNodes(s1, targets), i)
    decreases |s1| - i
  {
    var firstNodes, wholeNodes := TranslationNodes(s1, targets), TranslationNodes(s1 + s2, targets);
    assert i < |s1|;
    assert (s1 + s2)[i] == s1[i];
    assert EntityAt(wholeNodes, i) == EntityAt(firstNodes, i);
    if EntityAt(firstNodes, i).Success? {
      EarlierFailureFrom(s1, s2, targets, i + 1);
    }
  }

  /** A failure among the first sources is the failure of the whole list,
      whatever follows: the map stops there and yields no partial output. */
  lemma EarlierFailureWins(s1: seq<Element>, s2: seq<Element>, targets: seq<Element>)
    requires GenerateContent(TranslationNodes(s1, targets)).Failure?
    ensures GenerateContent(TranslationNodes(s1 + s2, targets)) == GenerateContent(TranslationNodes(s1, targets))
  {
    EarlierFailureFrom(s1, s2, targets, 0);
  }

  /** The same error, reported `offset` positions later. */
  function ShiftError(e: ConversionError, offset: nat): (r: ConversionError)
    ensures r.index == e.index + offset
    ensures r.SourceWithoutChild? == e.SourceWithoutChild?
    ensures r.TargetMissing? == e.TargetMissing?
    ensures r.TargetWithoutChild? == e.TargetWithoutChild?
  {
    match e
    case SourceWithoutChild(i) => SourceWithoutChild(i + offset)
    case TargetMissing(i) => TargetMissing(i + offset)
    case TargetWithoutChild(i) => TargetWithoutChild(i + offset)
  }

  /** If the first sources convert and the later ones fail against the targets
      after them, the whole list fails with the later failure's cause, at its
      index shifted by the length of the first part. */
  lemma LaterFailureShifted(s1: seq<Element>, s2: seq<Element>, targets: seq<Element>)
    requires GenerateContent(TranslationNodes(s1, targets)).Success?
    requires |s1| <= |targets|  // implied by the success above; states it for the slice below
    requires GenerateContent(TranslationNodes(s2, targets[|s1|..])).Failure?
    ensures GenerateContent(TranslationNodes(s1 + s2, targets)) ==
            Failure(ShiftError(GenerateContent(TranslationNodes(s2, targets[|s1|..])).error, |s1|))
  {
    var wholeNodes := TranslationNodes(s1 + s2, targets);
    var restNodes := TranslationNodes(s2, targets[|s1|..]);
    var e := GenerateContent(restNodes).error;
    var shifted := ShiftError(e, |s1|);
    assert (s1 + s2)[|s1| + e.index] == s2[e.index];
    assert |targets| <= |s1| + e.index ==> |targets[|s1|..]| <= e.index;
    assert |s1| + e.index < |targets| ==> targets[|s1|..][e.index] == targets[|s1| + e.index];
    assert ExplainsFailure(wholeNodes, shifted);
    ExplainedIsUnpairable(wholeNodes, shifted);
    forall k | 0 <= k < |s1| + e.index ensures PairableAt(wholeNodes, k) {
      if k < |s1| {
        assert PairableAt(TranslationNodes(s1, targets), k);
        assert (s1 + s2)[k] == s1[k];
      } else {
        assert PairableAt(restNodes, k - |s1|);
        assert (s1 + s2)[k] == s2[k - |s1|];
        assert targets[|s1|..][k - |s1|] == targets[k];
      }
    }
    FailsAtFirstUnpairable(wholeNodes, |s1| + e.index);
    ExplanationUnique(wholeNodes, GenerateContent(wholeNodes).error, shifted);
  }

  // ---------------------------------------------------------------------------
  // Round trip

  /** An element whose only child has the given value, such as
      `<source>Hello</source>` for `Some("Hello")`. */
  function SingleChildElement(value: Option<string>): (e: Element)
    ensures |e.childNodes| == 1 && FirstChildValue(e) == value
  {
    Element([ChildNode(value)])
  }

  /** The element lists of a document holding one source and one target per
      record, in record order. */
  function NodesOf(records: seq<TranslationEntity>): (nodes: TranslationNodes)
    ensures |nodes.sourceNodes| == |records| && |nodes.targetNodes| == |records|
    ensures forall i :: 0 <= i < |records| ==>
      nodes.sourceNodes[i] == SingleChildElement(records[i].source) &&
      nodes.targetNodes[i] == SingleChildElement(records[i].target)
  {
    TranslationNodes(
      seq(|records|, i requires 0 <= i < |records| => SingleChildElement(records[i].source)),
      seq(|records|, i requires 0 <= i < |records| => SingleChildElement(records[i].target)))
  }

  /** Converting the document built from a list of records gives back exactly
      those records. */
  lemma RoundTrip(records: seq<TranslationEntity>)
    ensures GenerateContent(NodesOf(records)) == Success(records)
  {
    var nodes := NodesOf(records);
    forall i | 0 <= i < |records| ensures PairableAt(nodes, i) {
      assert |SingleChildElement(records[i].source).childNodes| == 1;
      assert |SingleChildElement(records[i].target).childNodes| == 1;
    }
    assert Convertible(nodes);
    var r := GenerateContent(nodes);
    assert |r.value| == |records|;
    forall i | 0 <= i < |records| ensures r.value[i] == records[i] {
      assert PairableAt(nodes, i);
      assert r.value[i].source == records[i].source;
      assert r.value[i].target == records[i].target;
    }
    assert r.value == records;
  }
}
