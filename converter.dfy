/**
 * The pairing step of the XLIFF-to-JSON converter: the i-th `<source>` element
 * and the i-th `<target>` element of a document become the i-th
 * `{source, target}` record, by position alone.
 *
 * The XML parse and the JSON serialisation around this step are not modelled;
 * the input is the pair of element lists the parser collected, and the output
 * is the sequence of records before it is turned into JSON text.
 */
module Converter {
  import opened Wrappers

  /** A child node of an element, reduced to its `nodeValue`: a string for a
      character-data node, `null` (None) for an element child. Which node kinds
      give which is decided by the DOM library and taken as given here. */
  datatype ChildNode = ChildNode(nodeValue: Option<string>)

  /** A `<source>` or `<target>` element, reduced to its child nodes in order. */
  datatype Element = Element(childNodes: seq<ChildNode>)

  /** The two element lists collected from the document, each in document order. */
  datatype TranslationNodes = TranslationNodes(sourceNodes: seq<Element>, targetNodes: seq<Element>)

  /** One output record. A field holds a child's `nodeValue`, so it may be null. */
  datatype TranslationEntity = TranslationEntity(source: Option<string>, target: Option<string>)

  /** The TypeError that stops the conversion, with the index being processed. */
  datatype ConversionError =
    | SourceWithoutChild(index: nat)  // `childNodes[0]` of the source element is undefined
    | TargetMissing(index: nat)       // `targetNodes[idx]` is undefined
    | TargetWithoutChild(index: nat)  // `childNodes[0]` of the target element is undefined

  // ---------------------------------------------------------------------------
  // Specification: when a position can be paired, and why it cannot

  /** The value of an element's first child node. */
  function FirstChildValue(e: Element): Option<string>
    requires |e.childNodes| > 0
  {
    e.childNodes[0].nodeValue
  }

  /** Position `i` can be paired: its source has a child, and a target with a
      child exists at the same position. */
  predicate PairableAt(nodes: TranslationNodes, i: nat)
    requires i < |nodes.sourceNodes|
  {
    && |nodes.sourceNodes[i].childNodes| > 0
    && i < |nodes.targetNodes|
    && |nodes.targetNodes[i].childNodes| > 0
  }

  /** Every source position can be paired. */
  predicate Convertible(nodes: TranslationNodes)
  {
    forall i :: 0 <= i < |nodes.sourceNodes| ==> PairableAt(nodes, i)
  }

  /** `e` correctly says why the position it names cannot be paired, checking
      the source element first, then the presence of a target, then the target's
      children, as the record's fields are evaluated. */
  predicate ExplainsFailure(nodes: TranslationNodes, e: ConversionError)
  {
    var src, tgt := nodes.sourceNodes, nodes.targetNodes;
    e.index < |src| &&
    match e
    case SourceWithoutChild(i) => |src[i].childNodes| == 0
    case TargetMissing(i) => |src[i].childNodes| > 0 && |tgt| <= i
    case TargetWithoutChild(i) => |src[i].childNodes| > 0 && i < |tgt| && |tgt[i].childNodes| == 0
  }

  // ---------------------------------------------------------------------------
  // The operations

  /** The record literal `{ source, target }`. */
  function CreateTranslationEntity(source: Option<string>, target: Option<string>): (e: TranslationEntity)
    ensures e.source == source && e.target == target
  {
    TranslationEntity(source, target)
  }

  /** The map callback for index `idx`: reads the first child value of source
      `idx`, then that of target `idx`, and wraps them as a record. */
  function EntityAt(nodes: TranslationNodes, idx: nat): (r: Result<TranslationEntity, ConversionError>)
    requires idx < |nodes.sourceNodes|
    ensures r.Success? <==> PairableAt(nodes, idx)
    ensures r.Success? ==>
      r.value.source == FirstChildValue(nodes.sourceNodes[idx]) &&
      r.value.target == FirstChildValue(nodes.targetNodes[idx])
    ensures r.Failure? ==> r.error.index == idx && ExplainsFailure(nodes, r.error)
  {
    var src := nodes.sourceNodes[idx];
    if |src.childNodes| == 0 then Failure(SourceWithoutChild(idx))
    else if |nodes.targetNodes| <= idx then Failure(TargetMissing(idx))
    else
      var tgt := nodes.targetNodes[idx];
      if |tgt.childNodes| == 0 then Failure(TargetWithoutChild(idx))
      else Success(CreateTranslationEntity(src.childNodes[0].nodeValue, tgt.childNodes[0].nodeValue))
  }

  /** The records for source positions `i` onwards, calling the callback in
      ascending index order; the first callback that throws ends the map. */
  function EntitiesFrom(nodes: TranslationNodes, i: nat): (r: Result<seq<TranslationEntity>, ConversionError>)
    requires i <= |nodes.sourceNodes|
    ensures r.Success? <==> forall k :: i <= k < |nodes.sourceNodes| ==> PairableAt(nodes, k)
    ensures r.Success? ==>
      |r.value| == |nodes.sourceNodes| - i &&
      forall k :: 0 <= k < |r.value| ==>
        PairableAt(nodes, i + k) &&
        r.value[k].source == FirstChildValue(nodes.sourceNodes[i + k]) &&
        r.value[k].target == FirstChildValue(nodes.targetNodes[i + k])
    ensures r.Failure? ==>
      i <= r.error.index && ExplainsFailure(nodes, r.error) &&
      forall k :: i <= k < r.error.index ==> PairableAt(nodes, k)
    decreases |nodes.sourceNodes| - i
  {
    if i == |nodes.sourceNodes| then Success([])
    else
      match EntityAt(nodes, i)
      case Failure(e) => Failure(e)
      case Success(entity) =>
        match EntitiesFrom(nodes, i + 1)
        case Failure(e) => Failure(e)
        case Success(rest) => Success([entity] + rest)
  }

  /** `generateJSONContent` up to the serialisation: one record per source
      element, in source order, paired with the target at the same index. On
      failure, the error is the first position that cannot be paired. */
  function GenerateContent(nodes: TranslationNodes): (r: Result<seq<TranslationEntity>, ConversionError>)
    ensures r.Success? <==> Convertible(nodes)
    ensures r.Success? ==>
      |r.value| == |nodes.sourceNodes| &&
      forall i :: 0 <= i < |r.value| ==>
        PairableAt(nodes, i) &&
        r.value[i].source == FirstChildValue(nodes.sourceNodes[i]) &&
        r.value[i].target == FirstChildValue(nodes.targetNodes[i])
    ensures r.Failure? ==>
      ExplainsFailure(nodes, r.error) &&
      forall i :: 0 <= i < r.error.index ==> PairableAt(nodes, i)
  {
    EntitiesFrom(nodes, 0)
  }
}
