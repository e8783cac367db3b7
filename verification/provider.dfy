/** ImageSequenceProvider: how the user interface asks for a frame by id.
    The id is "current" or a frame index, optionally followed by '?' and
    query items such as "thumbnail=true" or a cache-busting "r=2". */
module Provider {
  import opened Colors
  import opened Images
  import opened Decimal
  import opened Strings
  import opened FrameStore

  /** What the id asks for: the frame named before the '?', and whether
      the query marks it as a thumbnail. */
  datatype Request = Request(cleanId: string, thumbnail: bool)

  /** What requestImage hands back: the image and the size it reports. */
  datatype Reply = Reply(image: Image, width: int, height: int)

  /** The key of a query item: the text before its first '='. */
  function Key(item: string): string {
    item[..IndexOf(item, '=')]
  }

  /** The value of a query item: the text after its first '=', or nothing. */
  function Value(item: string): string {
    var i := IndexOf(item, '=');
    if i < |item| then item[i + 1..] else ""
  }

  /** queryItemValue: the value of the first item with the key, or the
      empty string when no item has it. */
  function ItemValue(items: seq<string>, key: string): (value: string)
    ensures (forall k :: 0 <= k < |items| ==> Key(items[k]) != key) ==> value == ""
    ensures forall k :: 0 <= k < |items| && Key(items[k]) == key && (forall j :: 0 <= j < k ==> Key(items[j]) != key) ==>
      value == Value(items[k])
  {
    if items == [] then ""
    else if Key(items[0]) == key then Value(items[0])
    else ItemValue(items[1..], key)
  }

  /** The value the query text gives `key`; items are separated by '&'. */
  function QueryValue(query: string, key: string): string {
    ItemValue(Split(query, '&'), key)
  }

  /** Splits the id at its first '?': the part before is the frame id, the
      part after is the query. Without a '?' the whole id names the frame
      and it is not a thumbnail. */
  function ParseId(id: string): (r: Request)
    ensures '?' !in r.cleanId
  {
    var i := IndexOf(id, '?');
    if i < |id| then Request(id[..i], QueryValue(id[i + 1..], ThumbnailKey) == "true")
    else
      assert id[..i] == id;
      Request(id, false)
  }

  /** An id without '?' names the frame by all of itself, without a thumbnail. */
  lemma ParseIdPlain(id: string)
    requires '?' !in id
    ensures ParseId(id) == Request(id, false)
  {
  }

  /** An id with a '?' is a frame id and a query joined at the first '?'. */
  lemma IdShape(id: string)
    requires '?' in id
    ensures var i := IndexOf(id, '?');
      && '?' !in id[..i]
      && id == id[..i] + ['?'] + id[i + 1..]
      && ParseId(id) == Request(id[..i], QueryValue(id[i + 1..], ThumbnailKey) == "true")
  {
    AroundFirst(id, '?');
  }

  /** Parsing an id built from a frame id and a query takes it apart again. */
  lemma ParseIdComposed(clean: string, query: string)
    requires '?' !in clean
    ensures ParseId(clean + "?" + query) == Request(clean, QueryValue(query, ThumbnailKey) == "true")
  {
    var id := clean + "?" + query;
    IndexOfSplit(clean, query, '?');
    assert id[..|clean|] == clean && id[|clean| + 1..] == query;
  }

  /** The first item of a query answers for its key, whatever follows
      the next '&'. */
  lemma {:induction false} FirstItemValue(key: string, value: string, rest: string)
    requires '=' !in key && '&' !in key && '&' !in value
    ensures QueryValue(key + "=" + value + "&" + rest, key) == value
  {
    var item := key + "=" + value;
    var query := key + "=" + value + "&" + rest;
    assert '&' !in item by {
      assert forall i :: 0 <= i < |item| ==> item[i] == (if i < |key| then key[i] else if i == |key| then '=' else value[i - |key| - 1]);
    }
    assert query == item + ['&'] + rest;
    IndexOfSplit(item, rest, '&');
    assert query[..|item|] == item;
    IndexOfSplit(key, value, '=');
    assert item[..|key|] == key && item[|key| + 1..] == value;
  }

  /** The query key that marks a thumbnail request. */
  const ThumbnailKey := "thumbnail"

  lemma ThumbnailKeyPlain()
    ensures '=' !in ThumbnailKey && '&' !in ThumbnailKey
  {
  }

  /** A query whose first item is "thumbnail=<value>" asks for a thumbnail
      exactly when the value is "true", whatever follows the next '&'. */
  lemma ThumbnailFirst(clean: string, value: string, rest: string)
    requires '?' !in clean && '&' !in value
    ensures ParseId(clean + "?" + (ThumbnailKey + "=" + value + "&" + rest)).thumbnail <==> value == "true"
  {
    ParseIdComposed(clean, ThumbnailKey + "=" + value + "&" + rest);
    ThumbnailKeyPlain();
    FirstItemValue(ThumbnailKey, value, rest);
  }

  /** The image a frame id names: the current frame for "current", the
      frame at a number, the null image for anything else. */
  function Select(s: Store, cleanId: string): Image {
    if cleanId == "current" then CurrentImage(s)
    else match ParseInt(cleanId)
      case Some(index) => ImageAt(s, index)
      case None => Null
  }

  /** The 1x1 fully transparent image served in place of a null image. */
  const Placeholder := Filled(1, 1, Transparent)

  /** requestImage, before any scaling: the selected image, or the
      placeholder when that is null; the size is that of the image served. */
  function RequestImage(s: Store, id: string): (r: Reply)
    ensures !IsNull(r.image)
    ensures r.width == r.image.width && r.height == r.image.height
    ensures var selected := Select(s, ParseId(id).cleanId);
      r.image == if IsNull(selected) then Placeholder else selected
  {
    var img := Select(s, ParseId(id).cleanId);
    var served := if IsNull(img) then Placeholder else img;
    Reply(served, served.width, served.height)
  }

  /** Asking for a frame by its index, with or without a query, serves
      that frame's image. */
  lemma RequestByIndex(s: Store, index: int, query: string)
    requires 0 <= index < |s.frames| && index <= MaxInt32
    requires !IsNull(s.frames[index].image)
    ensures RequestImage(s, ToDecimal(index)).image == s.frames[index].image
    ensures RequestImage(s, ToDecimal(index) + "?" + query).image == s.frames[index].image
  {
    DecimalRoundTrip(index);
    ParseIdComposed(ToDecimal(index), query);
    assert ToDecimal(index) != "current" by {
      assert "current"[0] == 'c';
    }
  }

  /** An index outside the sequence is answered with the placeholder. */
  lemma RequestOutOfRange(s: Store, index: int, query: string)
    requires !(0 <= index < |s.frames|) && MinInt32 <= index <= MaxInt32
    ensures RequestImage(s, ToDecimal(index) + "?" + query).image == Placeholder
    ensures RequestImage(s, ToDecimal(index) + "?" + query).width == 1
  {
    DecimalRoundTrip(index);
    ParseIdComposed(ToDecimal(index), query);
    assert ToDecimal(index) != "current" by {
      assert "current"[0] == 'c';
    }
  }

  /** "current" serves the current frame whatever the query, and the
      placeholder when there is none. */
  lemma RequestCurrent(s: Store, query: string)
    ensures var r := RequestImage(s, "current?" + query);
      && (0 <= s.current < |s.frames| && !IsNull(s.frames[s.current].image) ==> r.image == s.frames[s.current].image)
      && (!(0 <= s.current < |s.frames|) ==> r.image == Placeholder)
  {
    assert "current?" + query == "current" + "?" + query;
    ParseIdComposed("current", query);
  }

  /** An id that is neither "current" nor a number is answered with the
      placeholder. */
  lemma RequestUnknown(s: Store, clean: string, query: string)
    requires '?' !in clean && clean != "current" && ParseInt(clean).None?
    ensures RequestImage(s, clean + "?" + query).image == Placeholder
  {
    ParseIdComposed(clean, query);
  }
}
