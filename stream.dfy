/** The queue stream both persist loops drain: the raw items in queue
    order, and the JSON decoding of an item into an event, of which only
    the creation time matters here. The decoder is a parameter: the event
    type and its JSON mapping are not part of this model. */
module Stream {
  import opened Errors
  import Base64

  /** A raw queue item: the bytes of one line of `stream-events`. */
  type Item = seq<Base64.byte>

  /** `json.Unmarshal` into an event, yielding its `eventCreatedOn`. */
  type Decoder = Item -> Result<int>

  /** The position of the first item that does not decode, or |items|. */
  function FirstUndecodable(items: seq<Item>, decode: Decoder): (k: nat)
    ensures k <= |items|
    ensures forall i :: 0 <= i < k ==> decode(items[i]).Ok?
    ensures k < |items| ==> decode(items[k]).Err?
  {
    if items == [] || decode(items[0]).Err? then 0 else 1 + FirstUndecodable(items[1..], decode)
  }
}
