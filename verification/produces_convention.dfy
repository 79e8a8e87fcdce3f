/**
 * `ProducesConvention`: an application-model convention that, for every
 * action, finds the `[Produces]` attribute that applies (the action's own
 * first, else its controller's first) and appends its content types as
 * `ProducesMetadata` to the endpoint metadata of each of the action's selectors.
 */
module Convention {
  import opened Wrappers

  /** The attributes of an action or a controller, as far as the convention looks at them. */
  datatype Attribute = ProducesAttribute(contentTypes: seq<string>) | OtherAttribute(name: string)

  /** Entries of a selector's endpoint metadata list. */
  datatype Metadata = ProducesMetadata(contentTypes: seq<string>) | OtherMetadata(name: string)

  class ControllerModel {
    const attributes: seq<Attribute>

    constructor (attributes: seq<Attribute>)
      ensures this.attributes == attributes
    {
      this.attributes := attributes;
    }
  }

  class SelectorModel {
    var endpointMetadata: seq<Metadata>

    constructor (endpointMetadata: seq<Metadata>)
      ensures this.endpointMetadata == endpointMetadata
    {
      this.endpointMetadata := endpointMetadata;
    }
  }

  class ActionModel {
    const attributes: seq<Attribute>
    const controller: ControllerModel
    const selectors: seq<SelectorModel>

    constructor (attributes: seq<Attribute>, controller: ControllerModel, selectors: seq<SelectorModel>)
      ensures this.attributes == attributes && this.controller == controller && this.selectors == selectors
    {
      this.attributes := attributes;
      this.controller := controller;
      this.selectors := selectors;
    }
  }

  /** `attributes[i]` is the first `[Produces]` of the list. */
  predicate FirstProducesAt(attributes: seq<Attribute>, i: int) {
    0 <= i < |attributes| && attributes[i].ProducesAttribute? &&
    forall j :: 0 <= j < i ==> !attributes[j].ProducesAttribute?
  }

  predicate NoProduces(attributes: seq<Attribute>) {
    forall j :: 0 <= j < |attributes| ==> !attributes[j].ProducesAttribute?
  }

  /** `attributes.OfType<ProducesAttribute>().FirstOrDefault()`, as its content types. */
  function FirstProduces(attributes: seq<Attribute>): (r: Option<seq<string>>)
    ensures r.None? <==> NoProduces(attributes)
    ensures forall i :: FirstProducesAt(attributes, i) ==> r == Some(attributes[i].contentTypes)
  {
    if attributes == [] then None
    else if attributes[0].ProducesAttribute? then Some(attributes[0].contentTypes)
    else
      var r := FirstProduces(attributes[1..]);
      assert forall i :: 1 <= i < |attributes| ==> attributes[i] == attributes[1..][i - 1];
      assert forall i :: FirstProducesAt(attributes, i) ==> FirstProducesAt(attributes[1..], i - 1);
      r
  }

  /**
   * The `[Produces]` that applies to an action (the `??` in `Apply`): the
   * action's first one wins outright, unmerged, whatever the controller
   * declares; only without one on the action is the controller's first used.
   */
  function ResolveProduces(actionAttributes: seq<Attribute>, controllerAttributes: seq<Attribute>): (r: Option<seq<string>>)
    ensures forall i :: FirstProducesAt(actionAttributes, i) ==> r == Some(actionAttributes[i].contentTypes)
    ensures NoProduces(actionAttributes) ==>
      forall i :: FirstProducesAt(controllerAttributes, i) ==> r == Some(controllerAttributes[i].contentTypes)
    ensures r.None? <==> NoProduces(actionAttributes) && NoProduces(controllerAttributes)
  {
    var onAction := FirstProduces(actionAttributes);
    if onAction.Some? then onAction else FirstProduces(controllerAttributes)
  }

  /** Number of times `s` occurs in `selectors`. */
  function Occurrences(selectors: seq<SelectorModel>, s: SelectorModel): nat {
    if selectors == [] then 0
    else Occurrences(selectors[..|selectors| - 1], s) + (if selectors[|selectors| - 1] == s then 1 else 0)
  }

  function Repeat(m: Metadata, n: nat): (r: seq<Metadata>)
    ensures |r| == n && forall i :: 0 <= i < n ==> r[i] == m
  {
    if n == 0 then [] else Repeat(m, n - 1) + [m]
  }

  /** What `Apply` appends to a selector that occurs `n` times in the action's selector list. */
  function Appended(produces: Option<seq<string>>, n: nat): seq<Metadata> {
    if produces.Some? then Repeat(ProducesMetadata(produces.value), n) else []
  }

  /**
   * `Apply(action)`: every selector of the action gets the resolved content types
   * appended as one new `ProducesMetadata` (once per occurrence in the list), its
   * existing metadata kept in front; with no `[Produces]` anywhere nothing changes.
   */
  method Apply(action: ActionModel)
    modifies action.selectors
    ensures forall s :: s in action.selectors ==>
      s.endpointMetadata == old(s.endpointMetadata) +
        Appended(ResolveProduces(action.attributes, action.controller.attributes), Occurrences(action.selectors, s))
  {
    var produces := FirstProduces(action.attributes);
    if produces.None? {
      produces := FirstProduces(action.controller.attributes);
    }
    if produces.Some? {
      var metadata := ProducesMetadata(produces.value);
      var i := 0;
      while i < |action.selectors|
        invariant 0 <= i <= |action.selectors|
        invariant forall s :: s in action.selectors ==>
          s.endpointMetadata == old(s.endpointMetadata) + Repeat(metadata, Occurrences(action.selectors[..i], s))
      {
        var selector := action.selectors[i];
        assert action.selectors[..i + 1][..i] == action.selectors[..i];
        selector.endpointMetadata := selector.endpointMetadata + [metadata];
        i := i + 1;
      }
      assert action.selectors[..i] == action.selectors;
    } else {
      forall s | s in action.selectors ensures Occurrences(action.selectors, s) >= 0 { }
    }
  }

  /** In a list without repeated selectors, each listed selector occurs exactly once. */
  lemma {:induction false} OccurrencesDistinct(selectors: seq<SelectorModel>, s: SelectorModel)
    requires forall i, j :: 0 <= i < j < |selectors| ==> selectors[i] != selectors[j]
    ensures Occurrences(selectors, s) == if s in selectors then 1 else 0
  {
    if selectors != [] {
      var init := selectors[..|selectors| - 1];
      OccurrencesDistinct(init, s);
      assert selectors == init + [selectors[|selectors| - 1]];
    }
  }

  /** `EndpointMetadata.GetMetadata<IProducesMetadata>()`: the last produces entry, if any. */
  function EffectiveProduces(metadata: seq<Metadata>): Option<seq<string>> {
    if metadata == [] then None
    else if metadata[|metadata| - 1].ProducesMetadata? then Some(metadata[|metadata| - 1].contentTypes)
    else EffectiveProduces(metadata[..|metadata| - 1])
  }

  /**
   * After `Apply`, the content types an endpoint built from a selector reports
   * are the resolved ones, in their declared order; a selector is left alone
   * when nothing was resolved.
   */
  lemma EffectiveAfterApply(metadata: seq<Metadata>, produces: Option<seq<string>>, n: nat)
    requires n > 0
    ensures EffectiveProduces(metadata + Appended(produces, n)) ==
      if produces.Some? then produces else EffectiveProduces(metadata)
  {
    if produces.None? {
      assert metadata + Appended(produces, n) == metadata;
    }
  }
}
