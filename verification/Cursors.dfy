/** Cursor tokens and the paginator of the API. A cursor is the unpadded URL-safe base64 form of
    a kind, a colon and a decimal number. */
module Cursors {
  import opened Outcomes
  import opened Text
  import opened Numerals
  import opened Base64

  datatype PageError = InvalidLimit | InvalidCursor

  /** `encodeSequenceCursor`; `encodeCursor` is the case of kind "offset". */
  function EncodeCursor(kind: string, n: int): string
    requires IsBytes(kind)
  {
    PrintedIsBytes(n);
    Encode(UrlSafe, kind + ":" + Itoa(n))
  }

  lemma PrintedIsBytes(n: int)
    ensures IsBytes(Itoa(n))
  {
    var digits := Decimal(if n < 0 then -n else n);
    assert forall i | 0 <= i < |digits| :: IsDigit(digits[i]);
  }

  /** `decodeSequenceCursor`; `decodeCursor` is the case of kind "offset". */
  function DecodeCursor(cursor: string, kind: string): Option<int> {
    if cursor == "" then Some(0)
    else
      match Decode(UrlSafe, cursor)
      case None => None
      case Some(decoded) =>
        var value := if HasPrefix(decoded, kind + ":") then decoded[|kind| + 1..] else decoded;
        if value == decoded then None
        else
          match ParseInt64(value)
          case None => None
          case Some(n) => if n < 0 then None else Some(n)
  }

  /** A cursor survives the trip exactly when its number is a non-negative 64-bit integer;
      every other one is refused on the way back. */
  lemma CursorRoundTrip(kind: string, n: int)
    requires IsBytes(kind)
    ensures DecodeCursor(EncodeCursor(kind, n), kind) == if 0 <= n <= MAX_INT64 then Some(n) else None
    ensures EncodeCursor(kind, n) != ""
  {
    PrintedIsBytes(n);
    var text := kind + ":" + Itoa(n);
    DecodeOfEncode(UrlSafe, text);
    assert |Encode(UrlSafe, text)| > 0;
    assert text[..|kind| + 1] == kind + ":";
    assert text[|kind| + 1..] == Itoa(n);
    ParsePrinted(n);
  }

  /** What a cursor is: the text of its kind, a colon and the number; an offset's kind is "offset". */
  lemma CursorText(kind: string, n: int)
    requires IsBytes(kind)
    ensures Decode(UrlSafe, EncodeCursor(kind, n)) == Some(kind + ":" + Itoa(n))
    ensures OFFSETS.encode(n) == EncodeCursor("offset", n)
  {
    PrintedIsBytes(n);
    DecodeOfEncode(UrlSafe, kind + ":" + Itoa(n));
  }

  /** Which cursors are accepted, and for what: the empty one for the beginning, and those that
      decode to the kind, a colon and a numeral of a number that is not negative. */
  lemma AcceptedIff(cursor: string, kind: string, n: int)
    ensures DecodeCursor("", kind) == Some(0)
    ensures cursor != "" ==>
              (DecodeCursor(cursor, kind) == Some(n) <==>
               n >= 0 && exists numeral :: Decode(UrlSafe, cursor) == Some(kind + ":" + numeral) && ParseInt64(numeral) == Some(n))
  {
    if cursor != "" && Decode(UrlSafe, cursor).Some? {
      var decoded := Decode(UrlSafe, cursor).value;
      if DecodeCursor(cursor, kind) == Some(n) {
        assert decoded == kind + ":" + decoded[|kind| + 1..];
      }
      if numeral :| Decode(UrlSafe, cursor) == Some(kind + ":" + numeral) && ParseInt64(numeral) == Some(n) {
        assert decoded[..|kind| + 1] == kind + ":" && decoded[|kind| + 1..] == numeral;
      }
    }
  }

  /** A cursor of one kind is not accepted as a cursor of another kind. */
  lemma KindsDoNotMix(kind: string, other: string, n: int)
    requires IsBytes(kind) && kind != other && ':' !in kind && ':' !in other
    ensures DecodeCursor(EncodeCursor(kind, n), other) == None
  {
    PrintedIsBytes(n);
    var text := kind + ":" + Itoa(n);
    DecodeOfEncode(UrlSafe, text);
    CursorRoundTrip(kind, n);
    OtherKindIsNoPrefix(kind, other, Itoa(n));
  }

  lemma OtherKindIsNoPrefix(kind: string, other: string, rest: string)
    requires kind != other && ':' !in kind && ':' !in other
    ensures !HasPrefix(kind + ":" + rest, other + ":")
  {
    var text, prefix := kind + ":" + rest, other + ":";
    assert prefix[|other|] == ':' && text[|kind|] == ':';
    assert forall i | 0 <= i < |other| :: prefix[i] == other[i];
    assert forall i | 0 <= i < |kind| :: text[i] == kind[i];
  }

  // ---------------------------------------------------------------- pages

  /** How page offsets are written into cursors and read back. */
  datatype Codec = Codec(encode: int -> string, decode: string -> Option<int>)

  const OFFSETS := Codec(n => EncodeCursor("offset", n), c => DecodeCursor(c, "offset"))

  /** All that paging needs of a codec. */
  ghost predicate Faithful(codec: Codec) {
    && codec.decode("") == Some(0)
    && forall n | 0 <= n <= MAX_INT64 :: codec.encode(n) != "" && codec.decode(codec.encode(n)) == Some(n)
  }

  lemma OffsetsAreFaithful()
    ensures Faithful(OFFSETS)
  {
    forall n | 0 <= n <= MAX_INT64
      ensures OFFSETS.encode(n) != "" && OFFSETS.decode(OFFSETS.encode(n)) == Some(n)
    {
      CursorRoundTrip("offset", n);
    }
  }

  datatype Meta = Meta(limit: int, total: int, nextCursor: string)

  datatype Page<T> = Page(items: seq<T>, meta: Option<Meta>)

  /** Everything about a listing except which page is asked for: the trimmed `limit` query
      value, the full list, and the handler's default and maximum. */
  datatype Listing<T> = Listing(rawLimit: string, items: seq<T>, defaultLimit: nat, maximumLimit: nat)
  {
    function Limit(): Option<nat> {
      if rawLimit == "" then Some(defaultLimit)
      else
        match ParseInt64(rawLimit)
        case None => None
        case Some(n) => if n < 1 || n > maximumLimit then None else Some(n)
    }

    ghost predicate Sound() {
      |items| <= MAX_INT64 && defaultLimit >= 1 && Limit().Some?
    }

    function End(offset: nat): nat
      requires Limit().Some?
    {
      if offset + Limit().value < |items| then offset + Limit().value else |items|
    }
  }

  /** `paginate`, given the trimmed `cursor` query value. */
  function Paginate<T>(codec: Codec, list: Listing<T>, rawCursor: string): Result<Page<T>, PageError> {
    if list.rawLimit == "" && rawCursor == "" then Ok(Page(list.items, None))
    else
      match list.Limit()
      case None => Err(InvalidLimit)
      case Some(limit) =>
        match codec.decode(rawCursor)
        case None => Err(InvalidCursor)
        case Some(offset) =>
          if offset < 0 || offset > |list.items| then Err(InvalidCursor)
          else
            var end := list.End(offset);
            var next := if end < |list.items| then codec.encode(end) else "";
            Ok(Page(list.items[offset..end], Some(Meta(limit, |list.items|, next))))
  }

  /** The cursor under which a page says its successor is found. */
  function NextCursor<T>(page: Page<T>): string {
    if page.meta.None? then "" else page.meta.value.nextCursor
  }

  /** The pages a client sees that starts at `cursor` and follows `nextCursor` until it is
      empty, if that takes fewer than `bound` requests. */
  function Follow<T>(codec: Codec, list: Listing<T>, cursor: string, bound: nat): Option<seq<seq<T>>>
    decreases bound
  {
    if bound == 0 then None
    else
      match Paginate(codec, list, cursor)
      case Err(_) => None
      case Ok(page) =>
        if NextCursor(page) == "" then Some([page.items])
        else
          match Follow(codec, list, NextCursor(page), bound - 1)
          case None => None
          case Some(rest) => Some([page.items] + rest)
  }

  function Flatten<T>(pages: seq<seq<T>>): seq<T> {
    if pages == [] then [] else pages[0] + Flatten(pages[1..])
  }

  lemma FlattenCons<T>(page: seq<T>, rest: seq<seq<T>>)
    ensures Flatten([page] + rest) == page + Flatten(rest)
    ensures rest == [] ==> [page] + rest == [page] && Flatten([page]) == page
  {
    assert ([page] + rest)[1..] == rest;
    if rest == [] { assert [page] + rest == [page]; }
  }

  /** The limit is the default or the number asked for, which must lie between 1 and the maximum. */
  lemma LimitIs<T>(list: Listing<T>)
    ensures list.rawLimit == "" ==> list.Limit() == Some(list.defaultLimit)
    ensures list.rawLimit != "" ==> forall n: nat ::
              list.Limit() == Some(n) <==> ParseInt64(list.rawLimit) == Some(n) && 1 <= n <= list.maximumLimit
  {
  }

  /** Which requests are refused, and why: first for the limit, then for the cursor; and without
      either the whole list is returned, unpaged. */
  lemma RefusedIff<T>(codec: Codec, list: Listing<T>, cursor: string)
    ensures var r, asked := Paginate(codec, list, cursor), list.rawLimit != "" || cursor != "";
            var offset := codec.decode(cursor);
            && (!asked ==> r == Ok(Page(list.items, None)))
            && (r == Err(InvalidLimit) <==> asked && list.Limit().None?)
            && (r == Err(InvalidCursor) <==>
                asked && list.Limit().Some? && (offset.None? || offset.value < 0 || offset.value > |list.items|))
  {
  }

  /** A page asked for with a cursor holds the next `limit` items from its offset on, and its
      own cursor leads strictly further, to the end of the page, unless the list is exhausted. */
  lemma PageContents<T>(codec: Codec, list: Listing<T>, cursor: string, offset: nat)
    requires Faithful(codec) && list.Sound() && (list.rawLimit != "" || cursor != "")
    requires codec.decode(cursor) == Some(offset) && offset <= |list.items|
    ensures var r, end := Paginate(codec, list, cursor), list.End(offset);
            && end == (if offset + list.Limit().value <= |list.items| then offset + list.Limit().value else |list.items|)
            && r.Ok? && r.value.items == list.items[offset..end]
            && r.value.meta == Some(Meta(list.Limit().value, |list.items|, NextCursor(r.value)))
            && (if end < |list.items| then NextCursor(r.value) != "" && codec.decode(NextCursor(r.value)) == Some(end)
                else NextCursor(r.value) == "")
            && (offset < |list.items| ==> offset < end)
  {
  }

  lemma FollowStep<T>(codec: Codec, list: Listing<T>, cursor: string, page: Page<T>, bound: nat)
    requires bound > 0 && Paginate(codec, list, cursor) == Ok(page)
    ensures NextCursor(page) == "" ==> Follow(codec, list, cursor, bound) == Some([page.items])
    ensures var rest := Follow(codec, list, NextCursor(page), bound - 1);
            NextCursor(page) != "" && rest.Some? ==>
              Follow(codec, list, cursor, bound) == Some([page.items] + rest.value)
  {
  }

  lemma {:induction false} FollowFrom<T>(codec: Codec, list: Listing<T>, cursor: string, offset: nat, bound: nat)
      returns (pages: seq<seq<T>>)
    requires Faithful(codec) && list.Sound() && (list.rawLimit != "" || cursor != "")
    requires codec.decode(cursor) == Some(offset) && offset <= |list.items|
    requires bound > |list.items| - offset
    ensures Follow(codec, list, cursor, bound) == Some(pages) && Flatten(pages) == list.items[offset..]
    decreases bound
  {
    PageContents(codec, list, cursor, offset);
    var page, end := Paginate(codec, list, cursor).value, list.End(offset);
    FollowStep(codec, list, cursor, page, bound);
    var rest := [];
    if end < |list.items| { rest := FollowFrom(codec, list, NextCursor(page), end, bound - 1); }
    FlattenCons(page.items, rest);
    CutAt(list.items, offset, end);
    pages := [page.items] + rest;
  }

  lemma CutAt<T>(s: seq<T>, from: nat, to: nat)
    requires from <= to <= |s|
    ensures s[from..] == s[from..to] + s[to..]
  {
  }

  /** Following the cursors from the first page reaches a last page within as many requests as
      there are items, plus one, and the pages put together are the whole list in order. */
  lemma TraversalIsComplete<T>(list: Listing<T>)
    requires list.Sound()
    ensures var r := Follow(OFFSETS, list, "", |list.items| + 1);
            r.Some? && Flatten(r.value) == list.items
  {
    OffsetsAreFaithful();
    AnyTraversal(OFFSETS, list);
  }

  lemma AnyTraversal<T>(codec: Codec, list: Listing<T>)
    requires Faithful(codec) && list.Sound()
    ensures var r := Follow(codec, list, "", |list.items| + 1);
            r.Some? && Flatten(r.value) == list.items
  {
    if list.rawLimit == "" {
      FlattenCons(list.items, []);
    } else {
      var pages := FollowFrom(codec, list, "", 0, |list.items| + 1);
    }
  }
}
