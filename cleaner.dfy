/**
 * The event handler of the cleaner (`lambda_handler`): for one object
 * key in one bucket, skip keys that are not raw CSV input, otherwise read
 * the object, normalise its header row, and write the result under the
 * `clean/` key of the same bucket. Every error becomes a status-500
 * response carrying the error's text; the handler never raises.
 */
module Cleaner {
  import opened Wrappers
  import opened ColumnNames
  import opened ObjectKeys
  import opened Storage

  const NotValidInputMessage := "Not a valid input file"
  const EmptyFileMessage := "CSV file is empty"

  function SavedMessage(bucket: string, key: string): string {
    "Cleaned file saved to: s3://" + bucket + "/" + key
  }

  /** The dictionary the handler returns. */
  datatype Response = Response(statusCode: int, body: string)

  datatype Write = Write(target: ObjectRef, body: Body)

  /** What one invocation does: the response, and the object it writes if any. */
  datatype Outcome = Outcome(response: Response, write: Option<Write>)

  // ---------------------------------------------------------------------
  // Rows

  /** The rows written for the parsed rows of an input file: an empty file
      is an error; otherwise the header is normalised name by name and the
      data rows follow unchanged, in the same order. */
  function CleanRows(rows: seq<Row>): (r: Result<seq<Row>, string>)
    ensures r.Failure? <==> rows == []
    ensures r.Failure? ==> r.error == EmptyFileMessage
    ensures r.Success? ==>
      && |r.value| == |rows|
      && |r.value[0]| == |rows[0]|
      && (forall j :: 0 <= j < |rows[0]| ==> r.value[0][j] == CleanColumnName(rows[0][j]))
      && (forall j :: 0 <= j < |rows[0]| ==> IsCleanName(r.value[0][j]))
      && r.value[1..] == rows[1..]
  {
    if rows == [] then Failure(EmptyFileMessage)
    else
      var header := seq(|rows[0]|, j requires 0 <= j < |rows[0]| => CleanColumnName(rows[0][j]));
      Success([header] + rows[1..])
  }

  /** Cleaning a cleaned file changes nothing. */
  lemma CleanRowsIdempotent(rows: seq<Row>)
    requires rows != []
    ensures CleanRows(CleanRows(rows).value) == CleanRows(rows)
  {
    var out := CleanRows(rows).value;
    var again := CleanRows(out).value;
    forall j | 0 <= j < |out[0]|
      ensures again[0][j] == out[0][j]
    {
      CleanColumnNameIdempotent(rows[0][j]);
    }
    assert again[0] == out[0];
    assert again[1..] == out[1..];
    assert again == [again[0]] + again[1..];
    assert out == [out[0]] + out[1..];
  }

  /** The rows written for a header and data rows, given the header's
      normalised names. */
  lemma CleanRowsOf(header: Row, cleaned: Row, data: seq<Row>)
    requires |cleaned| == |header|
    requires forall j :: 0 <= j < |header| ==> cleaned[j] == CleanColumnName(header[j])
    ensures CleanRows([header] + data) == Success([cleaned] + data)
  {
    var out := CleanRows([header] + data).value;
    assert out[0] == cleaned;
    assert out == [out[0]] + out[1..];
  }

  lemma ExampleHeaderRow(data: seq<Row>)
    ensures CleanRows([["Video ID", "  Views!!", "Like-Count"]] + data)
         == Success([["video_id", "views_", "like_count"]] + data)
  {
    var header, cleaned := ["Video ID", "  Views!!", "Like-Count"], ["video_id", "views_", "like_count"];
    forall j | 0 <= j < 3
      ensures cleaned[j] == CleanColumnName(header[j])
    {
      if j == 0 {
        ExampleVideoId();
      } else if j == 1 {
        ExampleViews();
      } else {
        ExampleLikeCount();
      }
    }
    CleanRowsOf(["Video ID", "  Views!!", "Like-Count"], ["video_id", "views_", "like_count"], data);
  }

  /** The header list comprehension: each column name of the first row,
      normalised, in order. */
  method CleanHeader(row: Row) returns (header: Row)
    ensures |header| == |row|
    ensures forall j :: 0 <= j < |row| ==> header[j] == CleanColumnName(row[j])
  {
    header := [];
    for j := 0 to |row|
      invariant |header| == j
      invariant forall k :: 0 <= k < j ==> header[k] == CleanColumnName(row[k])
    {
      var name := CleanColumnName(row[j]);
      header := header + [name];
    }
  }

  /** The in-memory output file (`io.StringIO` written through
      `csv.writer`), kept as the rows written so far; the text the rows are
      serialised to is not modelled. */
  class CsvBuffer {
    var rows: seq<Row>

    constructor ()
      ensures rows == []
    {
      rows := [];
    }

    /** `writer.writerow` */
    method WriteRow(row: Row)
      modifies this
      ensures rows == old(rows) + [row]
    {
      rows := rows + [row];
    }

    /** `writer.writerows`: the given rows, one after the other. */
    method WriteRows(data: seq<Row>)
      modifies this
      ensures rows == old(rows) + data
    {
      for i := 0 to |data|
        invariant rows == old(rows) + data[..i]
      {
        WriteRow(data[i]);
        assert data[..i + 1] == data[..i] + [data[i]];
      }
      assert data[..|data|] == data;
    }
  }

  // ---------------------------------------------------------------------
  // The handler

  /** The store after an invocation's write, if it made one. */
  function Apply(objects: map<ObjectRef, Body>, write: Option<Write>): map<ObjectRef, Body> {
    match write
    case None => objects
    case Some(w) => objects[w.target := w.body]
  }

  /** What `lambda_handler` does for `key` in `bucket`, given the store's
      objects and whether the foreign write fails (and with what text).
      The status is 200 or 500; an object is written exactly when the key
      is input and the status is 200, and then to the `clean/` key of the
      same bucket. */
  function Handle(objects: map<ObjectRef, Body>, bucket: string, key: string, putFault: Option<string>): (o: Outcome)
    ensures o.response.statusCode == 200 || o.response.statusCode == 500
    ensures o.write.Some? <==> IsInputKey(key) && o.response.statusCode == 200
    ensures o.write.Some? ==> o.write.value.target == ObjectRef(bucket, CleanKey(key))
  {
    var source := ObjectRef(bucket, key);
    if !IsInputKey(key) then
      Outcome(Response(200, NotValidInputMessage), None)
    else if source !in objects then
      Outcome(Response(500, NoSuchKeyMessage), None)
    else
      match objects[source]
      case Unreadable(reason) => Outcome(Response(500, reason), None)
      case Csv(rows) =>
        match CleanRows(rows)
        case Failure(e) => Outcome(Response(500, e), None)
        case Success(out) =>
          var target := ObjectRef(bucket, CleanKey(key));
          if putFault.Some? then Outcome(Response(500, putFault.value), None)
          else Outcome(Response(200, SavedMessage(bucket, target.key)), Some(Write(target, Csv(out))))
  }

  /** `lambda_handler` over a mutable store: its response and the store it
      leaves behind are those `Handle` describes. */
  method LambdaHandler(store: ObjectStore, bucket: string, key: string, putFault: Option<string>)
    returns (response: Response)
    modifies store
    ensures var o := Handle(old(store.objects), bucket, key, putFault);
      response == o.response && store.objects == Apply(old(store.objects), o.write)
  {
    if !IsInputKey(key) {
      return Response(200, NotValidInputMessage);
    }
    var fetched := store.GetObject(ObjectRef(bucket, key));
    if fetched.Failure? {
      return Response(500, fetched.error);
    }
    if fetched.value.Unreadable? {
      return Response(500, fetched.value.reason);
    }
    var rows := fetched.value.rows;
    if rows == [] {
      return Response(500, EmptyFileMessage);
    }
    var header := CleanHeader(rows[0]);
    var data := rows[1..];
    var buffer := new CsvBuffer();
    buffer.WriteRow(header);
    buffer.WriteRows(data);
    var cleanKey := CleanKey(key);
    if putFault.Some? {
      return Response(500, putFault.value);
    }
    assert header == CleanRows(rows).value[0];
    assert buffer.rows == CleanRows(rows).value;
    store.PutObject(ObjectRef(bucket, cleanKey), Csv(buffer.rows));
    return Response(200, SavedMessage(bucket, cleanKey));
  }

  // ---------------------------------------------------------------------
  // Properties of an invocation

  /** A key that is not raw CSV input is skipped: success, nothing written. */
  lemma HandleSkipsOtherKeys(objects: map<ObjectRef, Body>, bucket: string, key: string, putFault: Option<string>)
    requires !IsInputKey(key)
    ensures Handle(objects, bucket, key, putFault) == Outcome(Response(200, NotValidInputMessage), None)
  {
  }

  /** An input file that parses to no rows fails with the empty-file error
      and nothing is written. */
  lemma HandleEmptyFile(objects: map<ObjectRef, Body>, bucket: string, key: string, putFault: Option<string>)
    requires IsInputKey(key)
    requires ObjectRef(bucket, key) in objects && objects[ObjectRef(bucket, key)] == Csv([])
    ensures Handle(objects, bucket, key, putFault) == Outcome(Response(500, EmptyFileMessage), None)
  {
  }

  /** Every failure (missing object, undecodable body, empty file, failed
      write) gives a 500 response carrying that error's text, and nothing
      is written; conversely a 500 response always comes from one of them. */
  lemma HandleFailureWritesNothing(objects: map<ObjectRef, Body>, bucket: string, key: string, putFault: Option<string>)
    requires IsInputKey(key)
    ensures ObjectRef(bucket, key) !in objects ==>
      Handle(objects, bucket, key, putFault) == Outcome(Response(500, NoSuchKeyMessage), None)
    ensures ObjectRef(bucket, key) in objects && objects[ObjectRef(bucket, key)].Unreadable? ==>
      Handle(objects, bucket, key, putFault) == Outcome(Response(500, objects[ObjectRef(bucket, key)].reason), None)
    ensures (ObjectRef(bucket, key) in objects && objects[ObjectRef(bucket, key)].Csv?
             && objects[ObjectRef(bucket, key)].rows != [] && putFault.Some?) ==>
      Handle(objects, bucket, key, putFault) == Outcome(Response(500, putFault.value), None)
    ensures var o := Handle(objects, bucket, key, putFault);
      o.response.statusCode == 500 <==> o.write.None?
    ensures var o := Handle(objects, bucket, key, putFault);
      o.response.statusCode == 500 ==>
        || (ObjectRef(bucket, key) !in objects && o.response.body == NoSuchKeyMessage)
        || (ObjectRef(bucket, key) in objects && objects[ObjectRef(bucket, key)] == Unreadable(o.response.body))
        || (ObjectRef(bucket, key) in objects && objects[ObjectRef(bucket, key)] == Csv([]) && o.response.body == EmptyFileMessage)
        || (ObjectRef(bucket, key) in objects && objects[ObjectRef(bucket, key)].Csv?
            && objects[ObjectRef(bucket, key)].rows != [] && putFault == Some(o.response.body))
  {
  }

  /** A non-empty input file is written, once, to the `clean/` key of the
      same bucket: its header normalised, its data rows unchanged; the
      response names the destination. */
  lemma HandleSuccess(objects: map<ObjectRef, Body>, bucket: string, key: string, rows: seq<Row>)
    requires IsInputKey(key) && rows != []
    requires ObjectRef(bucket, key) in objects && objects[ObjectRef(bucket, key)] == Csv(rows)
    ensures var o := Handle(objects, bucket, key, None);
      && o.response == Response(200, SavedMessage(bucket, CleanKey(key)))
      && o.write == Some(Write(ObjectRef(bucket, CleanKey(key)), Csv(CleanRows(rows).value)))
  {
  }

  /** The raw object is never overwritten: the write goes to another key. */
  lemma HandleKeepsSource(objects: map<ObjectRef, Body>, bucket: string, key: string, putFault: Option<string>)
    ensures var o := Handle(objects, bucket, key, putFault);
      forall ref :: ref in objects && ref.bucket == bucket && ref.key == key ==>
        ref in Apply(objects, o.write) && Apply(objects, o.write)[ref] == objects[ref]
  {
    if IsInputKey(key) {
      CleanKeyOfInput(key);
    }
  }

  /** The object written does not set the cleaner off again: handling the
      event for the written key is a skip. */
  lemma HandleOutputIsSkipped(objects: map<ObjectRef, Body>, bucket: string, key: string, putFault: Option<string>, nextFault: Option<string>)
    ensures var o := Handle(objects, bucket, key, putFault);
      o.write.Some? ==>
        Handle(Apply(objects, o.write), bucket, o.write.value.target.key, nextFault)
        == Outcome(Response(200, NotValidInputMessage), None)
  {
    CleanKeyIsNotInput(key);
  }

  /** Handling the same event twice gives the same response, and the
      second run writes the same object again, so the store is as after
      the first run. */
  lemma HandleRerun(objects: map<ObjectRef, Body>, bucket: string, key: string)
    ensures var o1 := Handle(objects, bucket, key, None);
      var after := Apply(objects, o1.write);
      var o2 := Handle(after, bucket, key, None);
      o2 == o1 && Apply(after, o2.write) == after
  {
    var o1 := Handle(objects, bucket, key, None);
    if o1.write.Some? {
      CleanKeyOfInput(key);
      var after := Apply(objects, o1.write);
      assert ObjectRef(bucket, key) in after <==> ObjectRef(bucket, key) in objects;
      assert ObjectRef(bucket, key) in objects ==> after[ObjectRef(bucket, key)] == objects[ObjectRef(bucket, key)];
    }
  }
}
