/** `get_fulltext`: collect the full text of every attachment in a collection listing. */
module Fulltext {
  import opened Text

  /** The two fields of a listed item's `data` record that the collection step reads. */
  datatype Item = Item(key: string, itemType: string)

  /** What the server answers for one attachment key: its indexed full text, or "resource not
      found" when no full text is indexed for it. */
  datatype FulltextResult = Found(content: string) | NotFound

  const ATTACHMENT: string := "attachment"

  predicate IsAttachment(item: Item)
  {
    item.itemType == ATTACHMENT
  }

  /** `[i['data']['key'] for i in c if i['data']['itemType'] == 'attachment']` */
  function AttachmentKeys(items: seq<Item>): (keys: seq<string>)
    ensures |keys| <= |items|
  {
    if items == [] then []
    else
      var last := items[|items| - 1];
      AttachmentKeys(items[..|items| - 1]) + (if IsAttachment(last) then [last.key] else [])
  }

  /** The positions in `items` of the attachments, ascending. */
  function AttachmentPositions(items: seq<Item>): (r: seq<nat>)
  {
    if items == [] then []
    else
      AttachmentPositions(items[..|items| - 1])
      + (if IsAttachment(items[|items| - 1]) then [|items| - 1] else [])
  }

  /** The keys are exactly those of the attachment items, in listing order: the k-th key
      belongs to the item at the k-th attachment position, the positions rise strictly, and a
      position is listed if and only if its item is an attachment. */
  lemma {:induction false} AttachmentKeysExactly(items: seq<Item>)
    ensures |AttachmentPositions(items)| == |AttachmentKeys(items)|
    ensures forall k :: 0 <= k < |AttachmentPositions(items)| ==>
      AttachmentPositions(items)[k] < |items|
      && AttachmentKeys(items)[k] == items[AttachmentPositions(items)[k]].key
    ensures forall k, l :: 0 <= k < l < |AttachmentPositions(items)| ==>
      AttachmentPositions(items)[k] < AttachmentPositions(items)[l]
    ensures forall i :: 0 <= i < |items| ==>
      (i in AttachmentPositions(items) <==> IsAttachment(items[i]))
    decreases |items|
  {
    if items != [] {
      var init := items[..|items| - 1];
      AttachmentKeysExactly(init);
      assert forall i :: 0 <= i < |init| ==> init[i] == items[i];
    }
  }

  /** A key is selected if and only if some attachment item carries it. */
  lemma AttachmentKeysMembership(items: seq<Item>, key: string)
    ensures key in AttachmentKeys(items)
      <==> exists i :: 0 <= i < |items| && IsAttachment(items[i]) && items[i].key == key
  {
    AttachmentKeysExactly(items);
    var ps := AttachmentPositions(items);
    if key in AttachmentKeys(items) {
      var k :| 0 <= k < |ps| && AttachmentKeys(items)[k] == key;
      assert ps[k] in ps;
    }
    if i :| 0 <= i < |items| && IsAttachment(items[i]) && items[i].key == key {
      assert i in ps;
      var k :| 0 <= k < |ps| && ps[k] == i;
      assert AttachmentKeys(items)[k] == key;
    }
  }

  /** The contents gathered by the loop over `keys`: the content of each key whose lookup
      succeeded, in key order. */
  function FoundContents(keys: seq<string>, fulltext: string -> FulltextResult): (texts: seq<string>)
    ensures |texts| <= |keys|
  {
    if keys == [] then [] else FoundContents(keys[..|keys| - 1], fulltext) + Gathered(fulltext(keys[|keys| - 1]))
  }

  /** What one lookup adds: its content when found, nothing when "not found". */
  function Gathered(result: FulltextResult): (r: seq<string>)
  {
    match result
    case Found(content) => [content]
    case NotFound => []
  }

  /** The positions in `keys` whose lookup succeeded, ascending. */
  function FoundPositions(keys: seq<string>, fulltext: string -> FulltextResult): (r: seq<nat>)
  {
    if keys == [] then []
    else
      FoundPositions(keys[..|keys| - 1], fulltext)
      + (if fulltext(keys[|keys| - 1]).Found? then [|keys| - 1] else [])
  }

  /** The gathered texts are exactly the contents of the successful lookups, in key order:
      the k-th text is the content found for the key at the k-th found position, the
      positions rise strictly, and a position is used if and only if its lookup succeeded. */
  lemma {:induction false} FoundContentsExactly(keys: seq<string>, fulltext: string -> FulltextResult)
    ensures |FoundPositions(keys, fulltext)| == |FoundContents(keys, fulltext)|
    ensures forall k :: 0 <= k < |FoundPositions(keys, fulltext)| ==>
      FoundPositions(keys, fulltext)[k] < |keys|
      && fulltext(keys[FoundPositions(keys, fulltext)[k]]) == Found(FoundContents(keys, fulltext)[k])
    ensures forall k, l :: 0 <= k < l < |FoundPositions(keys, fulltext)| ==>
      FoundPositions(keys, fulltext)[k] < FoundPositions(keys, fulltext)[l]
    ensures forall i :: 0 <= i < |keys| ==>
      (i in FoundPositions(keys, fulltext) <==> fulltext(keys[i]).Found?)
    decreases |keys|
  {
    if keys != [] {
      var init := keys[..|keys| - 1];
      FoundContentsExactly(init, fulltext);
      assert forall i :: 0 <= i < |init| ==> init[i] == keys[i];
    }
  }

  /** Gathering over two runs of keys one after the other is gathering over each in turn. */
  lemma {:induction false} FoundContentsAppend(front: seq<string>, back: seq<string>,
                                              fulltext: string -> FulltextResult)
    ensures FoundContents(front + back, fulltext)
      == FoundContents(front, fulltext) + FoundContents(back, fulltext)
    decreases |back|
  {
    if back == [] {
      assert front + back == front;
    } else {
      var init := back[..|back| - 1];
      FoundContentsAppend(front, init, fulltext);
      assert (front + back)[..|front + back| - 1] == front + init;
      assert (front + back)[|front + back| - 1] == back[|back| - 1];
    }
  }

  /** Nothing is gathered if and only if every lookup answers "not found". */
  lemma {:induction false} NothingFound(keys: seq<string>, fulltext: string -> FulltextResult)
    ensures FoundContents(keys, fulltext) == []
      <==> forall k :: 0 <= k < |keys| ==> fulltext(keys[k]) == NotFound
    decreases |keys|
  {
    if keys != [] {
      var init := keys[..|keys| - 1];
      NothingFound(init, fulltext);
      assert forall k :: 0 <= k < |init| ==> init[k] == keys[k];
    }
  }

  /** `get_fulltext` for the listing `items`, with `fulltext` answering each lookup: select
      the attachment keys, skip each key whose lookup is "not found", and join the contents
      found with single spaces. */
  method GetFulltext(items: seq<Item>, fulltext: string -> FulltextResult) returns (text: string)
    ensures text == Join(FoundContents(AttachmentKeys(items), fulltext))
  {
    var texts: seq<string> := [];
    var keys := AttachmentKeys(items);
    for i := 0 to |keys|
      invariant texts == FoundContents(keys[..i], fulltext)
    {
      assert keys[..i + 1][..i] == keys[..i];
      match fulltext(keys[i]) {
        case Found(content) =>
          texts := texts + [content];
        case NotFound =>
      }
    }
    assert keys[..|keys|] == keys;
    text := Join(texts);
  }

  /** With no attachment in the listing, or only attachments without full text, the result
      is the empty string. */
  lemma EmptyFulltext(items: seq<Item>, fulltext: string -> FulltextResult)
    requires forall i :: 0 <= i < |items| && IsAttachment(items[i]) ==> fulltext(items[i].key) == NotFound
    ensures Join(FoundContents(AttachmentKeys(items), fulltext)) == ""
  {
    var keys := AttachmentKeys(items);
    forall k | 0 <= k < |keys|
      ensures fulltext(keys[k]) == NotFound
    {
      AttachmentKeysMembership(items, keys[k]);
    }
    NothingFound(keys, fulltext);
  }

  /** Three attachments, the second without full text: the result is the first and third
      contents with one space between them, and no failure. */
  lemma SkipMissingExample(a: string, b: string, c: string, first: string, third: string,
                           fulltext: string -> FulltextResult)
    requires fulltext(a) == Found(first) && fulltext(b) == NotFound && fulltext(c) == Found(third)
    ensures Join(FoundContents(AttachmentKeys([Item(a, ATTACHMENT), Item(b, ATTACHMENT), Item(c, ATTACHMENT)]),
                               fulltext))
      == first + [SPACE] + third
  {
    var items := [Item(a, ATTACHMENT), Item(b, ATTACHMENT), Item(c, ATTACHMENT)];
    assert AttachmentKeys(items) == [a, b, c] by {
      forall n | 0 < n <= 3
        ensures AttachmentKeys(items[..n]) == AttachmentKeys(items[..n - 1]) + [items[n - 1].key]
      {
        assert items[..n][..n - 1] == items[..n - 1];
      }
      assert items[..0] == [] && items[..3] == items;
      assert AttachmentKeys(items[..1]) == [a];
      assert AttachmentKeys(items[..2]) == [a, b];
    }
    assert FoundContents([a, b, c], fulltext) == [first, third] by {
      assert [a][..0] == [] && [b][..0] == [] && [c][..0] == [];
      FoundContentsAppend([a], [b], fulltext);
      FoundContentsAppend([a, b], [c], fulltext);
      assert [a] + [b] == [a, b] && [a, b] + [c] == [a, b, c];
    }
    JoinSnoc([first], third);
  }
}
