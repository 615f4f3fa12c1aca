/** Element rules of the BML document object model: the fixed image sizes
    of ARIB STD-B24 volume 2 (2/2) part 2 annex 2 table 5-3, the initial
    `streamStatus` of an object, boolean attributes stored as
    `name="name"`, focus transfer, and `DOMImplementation.hasFeature`. */
module Dom {
  import opened Common
  import Events

  /** The size `fixImageSize` gives: a width and height, or none. */
  datatype ImageSize = Sized(width: int, height: int) | Unsized

  const ImageTypes: set<string> := {"image/jpeg", "image/x-arib-png", "image/x-arib-mng"}

  /** `fixImageSize`. A JPEG shown at 720x480 has an even width, one less
      than an odd one; at other resolutions a JPEG is shown at half size
      (rounded down) unless it is 960x540. PNG and MNG keep their size;
      other types get none. */
  function FixImageSize(resolution: string, width: int, height: int, imageType: string): (r: ImageSize)
    ensures Lower(imageType) !in ImageTypes <==> r == Unsized
    ensures Lower(imageType) == "image/jpeg" && Trim(resolution) == "720x480" ==>
              && r.Sized? && r.height == height
              && r.width % 2 == 0 && width - 1 <= r.width <= width
    ensures Lower(imageType) == "image/jpeg" && Trim(resolution) != "720x480" ==>
              && r.Sized?
              && (width == 960 && height == 540 ==> r == Sized(960, 540))
              && (!(width == 960 && height == 540) ==>
                    && 2 * r.width <= width < 2 * r.width + 2
                    && 2 * r.height <= height < 2 * r.height + 2)
    ensures Lower(imageType) in {"image/x-arib-png", "image/x-arib-mng"} ==> r == Sized(width, height)
  {
    var t := Lower(imageType);
    var is720x480 := Trim(resolution) == "720x480";
    Halve(width);
    Halve(height);
    if t == "image/jpeg" then
      if is720x480 then
        if width % 2 != 0 then Sized(width - 1, height) else Sized(width, height)
      else if width == 960 && height == 540 then Sized(width, height)
      else Sized(width / 2, height / 2)
    else if t == "image/x-arib-png" || t == "image/x-arib-mng" then Sized(width, height)
    else Unsized
  }

  lemma Halve(x: int)
    ensures 2 * (x / 2) <= x < 2 * (x / 2) + 2
    ensures x % 2 != 0 ==> (x - 1) % 2 == 0
  {
  }

  lemma {:induction false} LowerIdempotent(s: string)
    ensures Lower(Lower(s)) == Lower(s)
  {
    var l := Lower(s);
    assert forall i :: 0 <= i < |s| ==> LowerChar(l[i]) == l[i];
  }

  /** The type is compared without regard to ASCII case. */
  lemma ImageTypeCaseInsensitive(resolution: string, width: int, height: int, imageType: string)
    ensures FixImageSize(resolution, width, height, imageType)
         == FixImageSize(resolution, width, height, Lower(imageType))
  {
    LowerIdempotent(imageType);
  }

  /** A size already fixed for a 720x480 JPEG stays as it is. */
  lemma FixedSizeStable720x480(resolution: string, width: int, height: int)
    requires Trim(resolution) == "720x480"
    ensures var r := FixImageSize(resolution, width, height, "image/jpeg");
            FixImageSize(resolution, r.width, r.height, "image/jpeg") == r
  {
    assert Lower("image/jpeg") == "image/jpeg";
  }

  /** Object types whose stream can be stopped start stopped. */
  const StopFirstTypes: set<string> :=
    {"audio/x-arib-mpeg2-aac", "audio/x-arib-aiff", "image/gif", "image/x-arib-mng"}

  /** The `streamStatus` getter for an object whose animation has not
      finished: the `streamstatus` attribute if set, otherwise "stop" for
      the types that can be stopped and "play" for the rest. */
  function StreamStatus(obj: Events.Node): (r: string)
    ensures "streamstatus" in obj.attributes ==> r == obj.attributes["streamstatus"]
    ensures "streamstatus" !in obj.attributes ==>
              var t := Lower(TypeOf(obj));
              && (r == "stop" <==> t in StopFirstTypes)
              && (r == "play" <==> t !in StopFirstTypes)
  {
    match Events.GetAttribute(obj, "streamstatus")
    case Some(value) => value
    case None =>
      var t := Lower(TypeOf(obj));
      if t == "audio/x-arib-mpeg2-aac" || t == "audio/x-arib-aiff" || t == "image/gif" || t == "image/x-arib-mng"
      then "stop"
      else "play"
  }

  /** The object's `type` property: its `arib-type` attribute when present,
      otherwise the element's own `type` (its `type` attribute, or ""). */
  function TypeOf(obj: Events.Node): (t: string)
    ensures "arib-type" in obj.attributes ==> t == obj.attributes["arib-type"]
    ensures "arib-type" !in obj.attributes && "type" in obj.attributes ==> t == obj.attributes["type"]
    ensures "arib-type" !in obj.attributes && "type" !in obj.attributes ==> t == ""
  {
    match Events.GetAttribute(obj, "arib-type")
    case Some(t) => t
    case None =>
      match Events.GetAttribute(obj, "type")
      case Some(t) => t
      case None => ""
  }

  /** An `arib-type` attribute decides the default status whatever the
      `type` attribute says. */
  lemma AribTypeTakesPrecedence(obj: Events.Node, t: string)
    requires "streamstatus" !in obj.attributes
    requires "arib-type" in obj.attributes
    ensures StreamStatus(obj) == StreamStatus(obj.(attributes := obj.attributes["type" := t]))
    ensures StreamStatus(obj) == "stop" <==> Lower(obj.attributes["arib-type"]) in StopFirstTypes
  {
  }

  /** A boolean attribute: true when the attribute's value is its own name. */
  predicate Flag(attributes: map<string, string>, name: string) {
    name in attributes && attributes[name] == name
  }

  /** Setting a boolean attribute: true stores `name="name"`, false removes
      it. Reading it back gives what was set, and no other attribute changes. */
  function WithFlag(attributes: map<string, string>, name: string, v: bool): (r: map<string, string>)
    ensures Flag(r, name) == v
    ensures v ==> name in r && r[name] == name
    ensures !v ==> name !in r
    ensures forall other :: other != name ==>
              (other in r <==> other in attributes) && (other in r ==> r[other] == attributes[other])
  {
    if v then attributes[name := name] else attributes - {name}
  }

  /** An element whose attributes the accessors below change in place. */
  class BmlElement {
    const id: nat
    var attributes: map<string, string>

    constructor(id: nat, attributes: map<string, string>)
      ensures this.id == id && this.attributes == attributes
    {
      this.id := id;
      this.attributes := attributes;
    }

    function AsNode(): Events.Node
      reads this
    {
      Events.Node(id, attributes)
    }

    /** `remain`: the element keeps its state across a page transition. */
    predicate Remain()
      reads this
    {
      Flag(attributes, "remain")
    }

    method SetRemain(v: bool)
      modifies this
      ensures attributes == WithFlag(old(attributes), "remain", v)
      ensures Remain() == v
    {
      attributes := WithFlag(attributes, "remain", v);
    }

    /** `subscribe` of a `beitem`. */
    predicate Subscribe()
      reads this
    {
      Flag(attributes, "subscribe")
    }

    method SetSubscribe(v: bool)
      modifies this
      ensures attributes == WithFlag(old(attributes), "subscribe", v)
      ensures Subscribe() == v
    {
      attributes := WithFlag(attributes, "subscribe", v);
    }

    /** `invisible` of the `body`. */
    predicate Invisible()
      reads this
    {
      Flag(attributes, "invisible")
    }

    /** Also dispatches an "invisible" event to the browser; `detail` is
      that event's detail. */
    method SetInvisible(v: bool) returns (detail: bool)
      modifies this
      ensures attributes == WithFlag(old(attributes), "invisible", v)
      ensures Invisible() == v
      ensures detail == v
    {
      attributes := WithFlag(attributes, "invisible", v);
      detail := v;
    }
  }

  /** What `focus` does: nothing when the target already has the focus or
      cannot take it; otherwise the focus moves (the boolean) and a blur for
      the previous focus, if there was one, then a focus for the target are
      queued. */
  function FocusTransfer(prev: Option<Events.Node>, target: Events.Node, isCurrent: bool, focusable: bool)
    : (r: (bool, seq<Events.SyncEvent>))
    ensures isCurrent || !focusable ==> r == (false, [])
    ensures !isCurrent && focusable ==>
              && r.0
              && |r.1| == (if prev.Some? then 2 else 1)
              && r.1[|r.1| - 1] == Events.SyncEvent(Events.Focus, target)
              && (prev.Some? ==> r.1[0] == Events.SyncEvent(Events.Blur, prev.value))
  {
    if isCurrent || !focusable then (false, [])
    else
      var blur := if prev.Some? then [Events.SyncEvent(Events.Blur, prev.value)] else [];
      (true, blur + [Events.SyncEvent(Events.Focus, target)])
  }

  /** The document: its focus and the focusability test, which depends on
      computed style and is left abstract. */
  class BmlDocument {
    var currentFocus: BmlElement?
    const isFocusable: Events.Node -> bool

    constructor(isFocusable: Events.Node -> bool)
      ensures currentFocus == null && this.isFocusable == isFocusable
    {
      currentFocus := null;
      this.isFocusable := isFocusable;
    }

    /** `focus(node)`: queues the events without draining the queue. */
    method Focus(node: BmlElement, eventQueue: Events.EventQueue)
      modifies this, eventQueue
      ensures var prev := if old(currentFocus) == null then None else Some(old(currentFocus.AsNode()));
              var (moved, events) := FocusTransfer(prev, old(node.AsNode()), old(currentFocus) == node, isFocusable(old(node.AsNode())));
              && currentFocus == (if moved then node else old(currentFocus))
              && eventQueue.Fields() == old(eventQueue.Fields()).(sync := old(eventQueue.syncEventQueue) + events)
    {
      var prevFocus := currentFocus;
      if prevFocus == node {
        return;
      }
      if !isFocusable(node.AsNode()) {
        return;
      }
      currentFocus := node;
      if prevFocus != null {
        eventQueue.QueueSyncEvent(Events.SyncEvent(Events.Blur, prevFocus.AsNode()));
      }
      eventQueue.QueueSyncEvent(Events.SyncEvent(Events.Focus, node.AsNode()));
    }
  }

  /** `DOMImplementation.hasFeature`. */
  function HasFeature(feature: string, version: string): (r: bool)
    ensures r ==> |feature| == 3 && version == "1.0"
  {
    Upper(feature) == "BML" && version == "1.0"
  }

  /** The feature name matches "BML" in any ASCII case, and only the
      version "1.0" is supported. */
  lemma HasFeatureSpellings(feature: string, version: string)
    ensures HasFeature(feature, version) <==>
              && |feature| == 3 && version == "1.0"
              && feature[0] in {'b', 'B'} && feature[1] in {'m', 'M'} && feature[2] in {'l', 'L'}
  {
    if |feature| == 3 {
      var u := Upper(feature);
      assert u == "BML" <==> u[0] == 'B' && u[1] == 'M' && u[2] == 'L';
    }
  }
}
