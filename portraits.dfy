/**
 * Character portraits: a cache-miss handler that resolves a portrait through
 * a fixed ladder (portrait web service, then the Portraits table, then a
 * placeholder), the table lookup and upsert it relies on, and the one-shot
 * registration of that handler.
 *
 * The table is a sequence of rows; the portrait service, the image codec and
 * the character-name lookup are inputs. The static state of the source lives
 * in the class PortraitCache.
 */
module Portraits {
  import opened Outcomes

  /** A character id: a signed 64-bit `long`. */
  type CharId = x: int | -0x8000_0000_0000_0000 <= x < 0x8000_0000_0000_0000

  newtype byte = b: int | 0 <= b < 0x100

  type Bytes = seq<byte>

  /** An image, either decoded from bytes or drawn as a named placeholder. */
  datatype Image =
    | Decoded(width: nat, height: nat, raster: Bytes)
    | NamePlate(width: nat, height: nat, caption: string)

  /** Side length of the placeholder bitmap. */
  const PLACEHOLDER_SIDE: nat := 256

  /**
   * The placeholder drawn when no image could be fetched: a black square of
   * PLACEHOLDER_SIDE pixels with the character's name written in its centre.
   */
  function Placeholder(caption: string): (p: Image)
    ensures p.NamePlate? && p.caption == caption
    ensures p.width == PLACEHOLDER_SIDE && p.height == PLACEHOLDER_SIDE
  {
    NamePlate(PLACEHOLDER_SIDE, PLACEHOLDER_SIDE, caption)
  }

  /**
   * The image library as the model sees it: JPEG encoding always produces
   * bytes; decoding a byte stream may fail (None), where the library throws.
   */
  datatype Codec = Codec(encodeJpeg: Image -> Bytes, decode: Bytes -> Option<Image>)

  /** What the HTTP request to the portrait service gave back. */
  datatype WebResponse =
    | Unreachable          // GetResponse threw a WebException
    | NoStream             // the response had no response stream
    | Stream(body: Bytes)  // the bytes of the response stream

  /** The image returned by GetImageFromAPI together with its `success` flag. */
  datatype FetchOutcome = Success(image: Image) | Failure(placeholder: Image)
  {
    /** The image value handed back by the call (never null). */
    function Pic(): Image
    {
      if Success? then image else placeholder
    }
  }

  /**
   * GetImageFromAPI after the request: success exactly when a response
   * stream existed and decoded to an image; otherwise the placeholder for
   * the character's name is returned instead of null.
   */
  function GetImageFromAPI(decode: Bytes -> Option<Image>, response: WebResponse, name: string): (r: FetchOutcome)
    ensures r.Success? <==> response.Stream? && decode(response.body).Some?
    ensures r.Success? ==> r.image == decode(response.body).value
    ensures r.Failure? ==> r.placeholder.NamePlate? && r.placeholder.caption == name
    ensures r.Failure? ==> r.Pic().width == PLACEHOLDER_SIDE && r.Pic().height == PLACEHOLDER_SIDE
  {
    var decoded := if response.Stream? then decode(response.body) else None;
    match decoded
    case Some(img) => Success(img)
    case None => Failure(Placeholder(name))
  }

  /** A row of the Portraits table. */
  datatype Row = Row(charID: CharId, portrait: Bytes)

  /** The rows FillByID loads for `charID`: those with that id, in table order. */
  function FillByID(rows: seq<Row>, charID: CharId): (found: seq<Row>)
    ensures forall row :: row in found <==> row in rows && row.charID == charID
    ensures |found| <= |rows|
  {
    if rows == [] then []
    else (if rows[0].charID == charID then [rows[0]] else []) + FillByID(rows[1..], charID)
  }

  /** Exactly one position of the table holds a row for `charID`. */
  ghost predicate ExactlyOneRow(rows: seq<Row>, charID: CharId)
  {
    exists i :: 0 <= i < |rows| && rows[i].charID == charID &&
      forall j :: 0 <= j < |rows| && rows[j].charID == charID ==> j == i
  }

  /** FillByID finds nothing exactly when no position holds a row for `charID`. */
  lemma NoRowLoaded(rows: seq<Row>, charID: CharId)
    ensures FillByID(rows, charID) == [] <==> forall j :: 0 <= j < |rows| ==> rows[j].charID != charID
  {
  }

  /** FillByID finds one row exactly when one position holds a row for `charID`. */
  lemma {:induction false} OneRowLoaded(rows: seq<Row>, charID: CharId)
    ensures |FillByID(rows, charID)| == 1 <==> ExactlyOneRow(rows, charID)
  {
    if rows != [] {
      var rest := rows[1..];
      if rows[0].charID == charID {
        OneRowLoadedAtHead(rows, charID);
      } else {
        OneRowLoaded(rest, charID);
        assert FillByID(rows, charID) == FillByID(rest, charID);
        ExactlyOneRowShift(rows, charID);
      }
    }
  }

  /** The case where the first row has the id. */
  lemma OneRowLoadedAtHead(rows: seq<Row>, charID: CharId)
    requires rows != [] && rows[0].charID == charID
    ensures |FillByID(rows, charID)| == 1 <==> ExactlyOneRow(rows, charID)
  {
    var rest := rows[1..];
    assert FillByID(rows, charID) == [rows[0]] + FillByID(rest, charID);
    NoRowLoaded(rest, charID);
    if FillByID(rest, charID) == [] {
      forall j | 0 < j < |rows|
        ensures rows[j].charID != charID
      {
        assert rows[j] == rest[j - 1];
      }
      assert rows[0].charID == charID &&
        forall j :: 0 <= j < |rows| && rows[j].charID == charID ==> j == 0;
    } else {
      var k :| 0 <= k < |rest| && rest[k].charID == charID;
      assert rows[k + 1] == rest[k];
    }
  }

  /** A leading row for another id does not change whether exactly one row matches. */
  lemma ExactlyOneRowShift(rows: seq<Row>, charID: CharId)
    requires rows != [] && rows[0].charID != charID
    ensures ExactlyOneRow(rows, charID) <==> ExactlyOneRow(rows[1..], charID)
  {
  }

  /**
   * LoadPortraitFromDB: the row for `charID` when the table holds exactly
   * one; none when it holds no row or several rows for it.
   */
  function UniqueMatch(rows: seq<Row>, charID: CharId): (r: Option<Row>)
    ensures r.Some? <==> ExactlyOneRow(rows, charID)
    ensures r.Some? ==> r.value in rows && r.value.charID == charID
  {
    OneRowLoaded(rows, charID);
    var found := FillByID(rows, charID);
    if |found| == 1 then Some(found[0]) else None
  }

  /**
   * StorePortrait as a table update: the first row for `charID` gets the
   * new portrait bytes; with no such row, one new row is appended.
   */
  function Upsert(rows: seq<Row>, charID: CharId, bytes: Bytes): (r: seq<Row>)
    ensures (exists row :: row in rows && row.charID == charID) ==> |r| == |rows|
    ensures (forall row :: row in rows ==> row.charID != charID) ==> r == rows + [Row(charID, bytes)]
  {
    if rows == [] then [Row(charID, bytes)]
    else if rows[0].charID == charID then [rows[0].(portrait := bytes)] + rows[1..]
    else
      assert forall row :: row in rows && row != rows[0] ==> row in rows[1..];
      assert rows == [rows[0]] + rows[1..];
      [rows[0]] + Upsert(rows[1..], charID, bytes)
  }

  /** The rows of every other character are exactly as before an upsert. */
  lemma {:induction false} UpsertLeavesOther(rows: seq<Row>, charID: CharId, bytes: Bytes, other: CharId)
    requires other != charID
    ensures FillByID(Upsert(rows, charID, bytes), other) == FillByID(rows, other)
  {
    if rows == [] {
      assert FillByID([Row(charID, bytes)], other) == [] + FillByID([], other);
    } else {
      var up := Upsert(rows, charID, bytes);
      if rows[0].charID == charID {
        assert up[0].charID == charID && up[1..] == rows[1..];
      } else {
        UpsertLeavesOther(rows[1..], charID, bytes, other);
        assert up[0] == rows[0] && up[1..] == Upsert(rows[1..], charID, bytes);
      }
    }
  }

  /** The rows of every other character at once. */
  lemma UpsertLeavesOthers(rows: seq<Row>, charID: CharId, bytes: Bytes)
    ensures forall other: CharId :: other != charID ==>
      FillByID(Upsert(rows, charID, bytes), other) == FillByID(rows, other)
  {
    forall other: CharId | other != charID
      ensures FillByID(Upsert(rows, charID, bytes), other) == FillByID(rows, other)
    {
      UpsertLeavesOther(rows, charID, bytes, other);
    }
  }

  /** The rows for `charID` after an upsert: the first one rewritten, or a new one. */
  lemma {:induction false} UpsertRewritesFirst(rows: seq<Row>, charID: CharId, bytes: Bytes)
    ensures var before := FillByID(rows, charID);
      FillByID(Upsert(rows, charID, bytes), charID) ==
        [Row(charID, bytes)] + (if before == [] then [] else before[1..])
  {
    if rows == [] {
      assert FillByID([Row(charID, bytes)], charID) == [Row(charID, bytes)] + FillByID([], charID);
    } else {
      var up := Upsert(rows, charID, bytes);
      var before := FillByID(rows, charID);
      if rows[0].charID == charID {
        assert up == [Row(charID, bytes)] + rows[1..];
        assert up[0] == Row(charID, bytes) && up[1..] == rows[1..];
        assert FillByID(up, charID) == [Row(charID, bytes)] + FillByID(rows[1..], charID);
        assert before == [rows[0]] + FillByID(rows[1..], charID);
        assert before[1..] == FillByID(rows[1..], charID);
      } else {
        UpsertRewritesFirst(rows[1..], charID, bytes);
        assert up[0] == rows[0] && up[1..] == Upsert(rows[1..], charID, bytes);
        assert FillByID(up, charID) == FillByID(Upsert(rows[1..], charID, bytes), charID);
        assert before == FillByID(rows[1..], charID);
      }
    }
  }

  /** After an upsert into a table with at most one row for `charID`, the lookup finds the new bytes. */
  lemma UpsertThenLoad(rows: seq<Row>, charID: CharId, bytes: Bytes)
    requires |FillByID(rows, charID)| <= 1
    ensures UniqueMatch(Upsert(rows, charID, bytes), charID) == Some(Row(charID, bytes))
  {
    UpsertRewritesFirst(rows, charID, bytes);
  }

  /** Storing the same portrait twice leaves the table as storing it once. */
  lemma {:induction false} UpsertIdempotent(rows: seq<Row>, charID: CharId, bytes: Bytes)
    ensures Upsert(Upsert(rows, charID, bytes), charID, bytes) == Upsert(rows, charID, bytes)
  {
    if rows == [] {
      assert Upsert([Row(charID, bytes)], charID, bytes) == [Row(charID, bytes)] + [Row(charID, bytes)][1..];
    } else if rows[0].charID == charID {
      var up := Upsert(rows, charID, bytes);
      assert up[0].charID == charID && up[1..] == rows[1..];
    } else {
      UpsertIdempotent(rows[1..], charID, bytes);
      var up := Upsert(rows, charID, bytes);
      assert up[0] == rows[0] && up[1..] == Upsert(rows[1..], charID, bytes);
    }
  }

  /** Position of the first row for `charID`, or -1 when there is none. */
  function FirstRowIndex(rows: seq<Row>, charID: CharId): (i: int)
    ensures -1 <= i < |rows|
    ensures i == -1 <==> forall row :: row in rows ==> row.charID != charID
    ensures 0 <= i ==> rows[i].charID == charID && forall j :: 0 <= j < i ==> rows[j].charID != charID
  {
    if rows == [] then -1
    else if rows[0].charID == charID then 0
    else
      var k := FirstRowIndex(rows[1..], charID);
      assert forall row :: row in rows && row != rows[0] ==> row in rows[1..];
      if k == -1 then -1 else k + 1
  }

  /** Rewriting the first row for `charID` in place is the upsert. */
  lemma {:induction false} UpsertInPlace(rows: seq<Row>, charID: CharId, bytes: Bytes)
    requires 0 <= FirstRowIndex(rows, charID)
    ensures var i := FirstRowIndex(rows, charID);
      Upsert(rows, charID, bytes) == rows[i := rows[i].(portrait := bytes)]
  {
    if rows[0].charID != charID {
      var i := FirstRowIndex(rows, charID);
      var tail := rows[1..];
      assert FirstRowIndex(tail, charID) == i - 1;
      UpsertInPlace(tail, charID, bytes);
      assert Upsert(rows, charID, bytes) == [rows[0]] + Upsert(tail, charID, bytes);
      assert rows == [rows[0]] + tail;
      UpdateAfterHead(rows[0], tail, i - 1, rows[i].(portrait := bytes));
    }
  }

  /** Updating position j + 1 of a sequence with a head is updating j of its tail. */
  lemma UpdateAfterHead(head: Row, tail: seq<Row>, j: nat, v: Row)
    requires j < |tail|
    ensures ([head] + tail)[j + 1 := v] == [head] + tail[j := v]
  {
  }

  /** Image.FromStream threw on the bytes stored for a character. */
  datatype PortraitError = StoredImageUnreadable(charID: CharId)

  /** The image decoded from a stored row, or the exception decoding throws. */
  function DecodeStored(codec: Codec, row: Row): (r: Result<Image, PortraitError>)
    ensures r.Ok? <==> codec.decode(row.portrait).Some?
    ensures r.Ok? ==> r.value == codec.decode(row.portrait).value
    ensures r.Err? ==> r.error == StoredImageUnreadable(row.charID)
  {
    match codec.decode(row.portrait)
    case Some(img) => Ok(img)
    case None => Err(StoredImageUnreadable(row.charID))
  }

  /** What a cache miss yields (args.Data, or an exception) and the table afterwards. */
  datatype Resolution = Resolution(data: Result<Image, PortraitError>, rows: seq<Row>)

  /**
   * The resolution ladder of Cache_DataUpdateNeeded for one key, given the
   * outcome of the web fetch: a fetched image wins and is written back; else
   * the unique stored row is decoded; else the fetch's placeholder is used.
   */
  function Resolve(codec: Codec, rows: seq<Row>, key: CharId, fetch: FetchOutcome): (s: Resolution)
    ensures fetch.Success? ==> s.data == Ok(fetch.image)
    ensures fetch.Success? ==> s.rows == Upsert(rows, key, codec.encodeJpeg(fetch.image))
    ensures fetch.Success? ==>
      |FillByID(s.rows, key)| > 0 && FillByID(s.rows, key)[0] == Row(key, codec.encodeJpeg(fetch.image))
    ensures fetch.Success? ==> forall other: CharId :: other != key ==> FillByID(s.rows, other) == FillByID(rows, other)
    ensures fetch.Failure? ==> s.rows == rows
    ensures fetch.Failure? && UniqueMatch(rows, key).Some? ==> s.data == DecodeStored(codec, UniqueMatch(rows, key).value)
    ensures fetch.Failure? && UniqueMatch(rows, key).None? ==> s.data == Ok(fetch.placeholder)
    ensures s.data.Err? ==>
      fetch.Failure? && ExactlyOneRow(rows, key) && codec.decode(UniqueMatch(rows, key).value.portrait).None?
  {
    match fetch
    case Success(img) =>
      var bytes := codec.encodeJpeg(img);
      UpsertRewritesFirst(rows, key, bytes);
      UpsertLeavesOthers(rows, key, bytes);
      Resolution(Ok(img), Upsert(rows, key, bytes))
    case Failure(placeholder) =>
      match UniqueMatch(rows, key)
      case Some(row) => Resolution(DecodeStored(codec, row), rows)
      case None => Resolution(Ok(placeholder), rows)
  }

  /**
   * A portrait fetched once, then asked for again when the service is down,
   * comes back from the table (as the codec re-reads its own JPEG), and the
   * second miss writes nothing.
   */
  lemma FallbackServesWrittenBack(codec: Codec, rows: seq<Row>, key: CharId, img: Image, placeholder: Image)
    requires |FillByID(rows, key)| <= 1
    ensures var first := Resolve(codec, rows, key, Success(img));
      var second := Resolve(codec, first.rows, key, Failure(placeholder));
      second.rows == first.rows &&
      second.data == DecodeStored(codec, Row(key, codec.encodeJpeg(img)))
  {
    UpsertThenLoad(rows, key, codec.encodeJpeg(img));
  }
  /**
   * With two or more rows for the key, writing a fetched image back
   * overwrites only the first of them, so the key stays ambiguous and a later
   * miss with the service down still serves the fetch's placeholder.
   */
  lemma DuplicateRowsStayAmbiguous(codec: Codec, rows: seq<Row>, key: CharId, img: Image, placeholder: Image)
    requires |FillByID(rows, key)| >= 2
    ensures var first := Resolve(codec, rows, key, Success(img));
      var second := Resolve(codec, first.rows, key, Failure(placeholder));
      second.rows == first.rows && second.data == Ok(placeholder)
  {
    var stored := Upsert(rows, key, codec.encodeJpeg(img));
    UpsertRewritesFirst(rows, key, codec.encodeJpeg(img));
    assert |FillByID(stored, key)| >= 2;
    OneRowLoaded(stored, key);
  }


  /** A call the handler makes on the table: LoadPortraitFromDB or StorePortrait. */
  datatype TableCall = Loaded(charID: CharId) | Stored(charID: CharId, portrait: Image)

  /** The table calls a cache miss makes, given the fetch outcome. */
  function MissCalls(key: CharId, fetch: FetchOutcome): seq<TableCall>
  {
    if fetch.Success? then [Stored(key, fetch.image)] else [Loaded(key)]
  }

  /**
   * The static state of the portrait class: the one-shot initialisation
   * flag, the number of miss handlers attached to the cache's event, and
   * the Portraits table.
   */
  class PortraitCache {
    const codec: Codec
    var rows: seq<Row>
    var initialised: bool
    var handlers: nat
    /** The table calls made so far, in order. */
    ghost var calls: seq<TableCall>

    /** The handler is attached exactly when the flag is set, and then once. */
    ghost predicate Valid()
      reads this
    {
      handlers == if initialised then 1 else 0
    }

    constructor (codec: Codec, table: seq<Row>)
      ensures Valid() && !initialised
      ensures this.codec == codec && rows == table && calls == []
    {
      this.codec := codec;
      rows := table;
      initialised := false;
      handlers := 0;
      calls := [];
    }

    /** Attaches the miss handler unless that has been done already. */
    method Initialise()
      requires Valid()
      modifies this`initialised, this`handlers
      ensures Valid() && initialised
      ensures handlers == if old(initialised) then old(handlers) else old(handlers) + 1
    {
      if !initialised {
        handlers := handlers + 1;
        initialised := true;
      }
    }

    /** LoadPortraitFromDB: the row for `charID` only when it is the only one. */
    method LoadPortraitFromDB(charID: CharId) returns (row: Option<Row>)
      modifies this`calls
      ensures row == UniqueMatch(rows, charID)
      ensures calls == old(calls) + [Loaded(charID)]
    {
      calls := calls + [Loaded(charID)];
      var portraitData := FillByID(rows, charID);
      row := None;
      if |portraitData| == 1 {
        row := Some(portraitData[0]);
      }
    }

    /** StorePortrait: overwrite the first row for `charID` with the JPEG bytes, or add one. */
    method StorePortrait(charID: CharId, portrait: Image)
      modifies this`rows, this`calls
      ensures rows == Upsert(old(rows), charID, codec.encodeJpeg(portrait))
      ensures calls == old(calls) + [Stored(charID, portrait)]
    {
      calls := calls + [Stored(charID, portrait)];
      var imageData := codec.encodeJpeg(portrait);
      var i := FirstRowIndex(rows, charID);
      if 0 <= i {
        UpsertInPlace(rows, charID, imageData);
        rows := rows[i := rows[i].(portrait := imageData)];
      } else {
        rows := rows + [Row(charID, imageData)];
      }
    }

    /**
     * Cache_DataUpdateNeeded: fetch from the service; on success store and
     * use it; otherwise use the unique stored row; otherwise the placeholder.
     */
    method CacheDataUpdateNeeded(key: CharId, response: WebResponse, name: string)
      returns (data: Result<Image, PortraitError>)
      modifies this`rows, this`calls
      ensures var fetch := GetImageFromAPI(codec.decode, response, name);
        var s := Resolve(codec, old(rows), key, fetch);
        data == s.data && rows == s.rows && calls == old(calls) + MissCalls(key, fetch)
    {
      var pic := GetImageFromAPI(codec.decode, response, name);
      if pic.Success? {
        StorePortrait(key, pic.image);
        data := Ok(pic.image);
      } else {
        var rowData := LoadPortraitFromDB(key);
        if rowData.Some? {
          data := DecodeStored(codec, rowData.value);
        } else {
          data := Ok(pic.placeholder);
        }
      }
    }

    /**
     * GetPortrait: initialise once, then ask the cache. `cached` is the
     * cache's own answer for the key; on a miss the attached handler runs.
     */
    method GetPortrait(charID: CharId, cached: Option<Image>, response: WebResponse, name: string)
      returns (r: Result<Image, PortraitError>)
      requires Valid()
      modifies this`initialised, this`handlers, this`rows, this`calls
      ensures Valid() && initialised
      ensures old(initialised) ==> handlers == old(handlers)
      ensures cached.Some? ==> r == Ok(cached.value) && rows == old(rows) && calls == old(calls)
      ensures cached.None? ==>
        var fetch := GetImageFromAPI(codec.decode, response, name);
        var s := Resolve(codec, old(rows), charID, fetch);
        r == s.data && rows == s.rows && calls == old(calls) + MissCalls(charID, fetch)
    {
      if !initialised {
        Initialise();
      }
      if cached.Some? {
        r := Ok(cached.value);
      } else {
        r := CacheDataUpdateNeeded(charID, response, name);
      }
    }
  }
}
