/** The S3 event handler for static assets (`static.py`): the Cache-Control
    value chosen from an object key's suffix, and the dispatch of the
    records of one S3 notification.

    The S3 calls of `process_new_file` are a parameter: `head(bucket, key)`
    is `None` when they raise (which `process_new_file` swallows) and
    otherwise the object's content type, itself `None` when S3 reports
    none. Logging is not modelled. */
module StaticAssets {
  import opened Common

  const OneYear := "public, max-age=31536000"
  const ThirtyDays := "public, max-age=2592000"
  const OneHour := "public, max-age=3600"
  const DefaultContentType := "application/octet-stream"

  predicate LongLived(key: string) {
    EndsWith(key, ".css") || EndsWith(key, ".js") || EndsWith(key, ".ico")
  }

  predicate Image(key: string) {
    EndsWith(key, ".png") || EndsWith(key, ".jpg") || EndsWith(key, ".gif")
  }

  /** `get_cache_control(key, content_type)`: a year for stylesheets,
      scripts and the favicon, thirty days for images, an hour for anything
      else. The content type plays no part and the suffixes are compared
      case-sensitively. */
  function CacheControl(key: string, contentType: string): (r: string)
    ensures r == OneYear <==> LongLived(key)
    ensures r == ThirtyDays <==> Image(key)
    ensures r == OneHour <==> !LongLived(key) && !Image(key)
  {
    if EndsWith(key, ".css") || EndsWith(key, ".js") then OneYear
    else if EndsWith(key, ".png") || EndsWith(key, ".jpg") || EndsWith(key, ".gif") then ThirtyDays
    else if EndsWith(key, ".ico") then OneYear
    else OneHour
  }

  /** Upper-case suffixes are not recognised. */
  lemma CacheControlCaseSensitive(contentType: string)
    ensures CacheControl("STYLE.CSS", contentType) == OneHour
  {
    assert "STYLE.CSS"[5..] != ".css";
    assert "STYLE.CSS"[6..] != ".js";
    assert "STYLE.CSS"[5..] != ".ico";
  }

  /** Any key that ends in `.css` is cached for a year. */
  lemma StylesheetsCachedForAYear(name: string, contentType: string)
    ensures CacheControl(name + ".css", contentType) == OneYear
  {
    EndsWithConcat(name, ".css");
  }

  /** One S3 record; `None` marks an entry the record lacks, whose lookup
      raises `KeyError`. */
  datatype Record = Record(bucket: Option<string>, key: Option<string>, eventName: Option<string>)

  /** What the handler does for a record it can read. */
  datatype Action =
    | Updated(bucket: string, key: string, cacheControl: string, contentType: string)  // copied with new headers
    | UpdateFailed(bucket: string, key: string)    // the S3 calls raised and were swallowed
    | Removed(bucket: string, key: string)         // deletion noted

  predicate Readable(r: Record) {
    r.bucket.Some? && r.key.Some? && r.eventName.Some?
  }

  /** The `KeyError` text of the first lookup that fails on the record. */
  function MissingName(r: Record): string
    requires !Readable(r)
  {
    if r.bucket.None? then "'name'" else if r.key.None? then "'key'" else "'eventName'"
  }

  /** The action a readable record leads to: new-file processing for
      `ObjectCreated*`, deletion processing for `ObjectRemoved*`, none for
      any other event name. */
  function Dispatch(r: Record, head: (string, string) -> Option<Option<string>>): (a: seq<Action>)
    requires Readable(r)
    ensures |a| <= 1
    ensures |a| == 1 <==> StartsWith(r.eventName.value, "ObjectCreated") || StartsWith(r.eventName.value, "ObjectRemoved")
    ensures |a| == 1 && a[0].Updated? ==> a[0].cacheControl == CacheControl(r.key.value, a[0].contentType)
    ensures |a| == 1 ==> a[0].bucket == r.bucket.value && a[0].key == r.key.value
    ensures StartsWith(r.eventName.value, "ObjectCreated") ==>
      && |a| == 1 && (a[0].Updated? || a[0].UpdateFailed?)
      && (a[0].UpdateFailed? <==> head(r.bucket.value, r.key.value).None?)
      && (a[0].Updated? ==> a[0].contentType == head(r.bucket.value, r.key.value).value.GetOr(DefaultContentType))
    ensures !StartsWith(r.eventName.value, "ObjectCreated") && StartsWith(r.eventName.value, "ObjectRemoved") ==>
      a == [Removed(r.bucket.value, r.key.value)]
  {
    var b := r.bucket.value;
    var k := r.key.value;
    var name := r.eventName.value;
    if StartsWith(name, "ObjectCreated") then
      match head(b, k)
      case None => [UpdateFailed(b, k)]
      case Some(ct) =>
        var contentType := ct.GetOr(DefaultContentType);
        [Updated(b, k, CacheControl(k, contentType), contentType)]
    else if StartsWith(name, "ObjectRemoved") then [Removed(b, k)]
    else []
  }

  /** The actions of a prefix of readable records, in order. */
  function Actions(rs: seq<Record>, head: (string, string) -> Option<Option<string>>): seq<Action>
    requires forall i :: 0 <= i < |rs| ==> Readable(rs[i])
  {
    if |rs| == 0 then [] else Dispatch(rs[0], head) + Actions(rs[1..], head)
  }

  /** The handler's answer and the S3 work done before it answered. */
  datatype Reply = Reply(statusCode: int, body: string, actions: seq<Action>)

  /** The index of the first unreadable record, `|rs|` when all are
      readable. */
  function FirstUnreadable(rs: seq<Record>): (n: nat)
    ensures n <= |rs|
    ensures forall i :: 0 <= i < n ==> Readable(rs[i])
    ensures n < |rs| ==> !Readable(rs[n])
  {
    if |rs| == 0 || !Readable(rs[0]) then 0 else 1 + FirstUnreadable(rs[1..])
  }

  /** `handler(event, context)`. `records` is `event['Records']`, `None`
      when absent. The records are handled in order; an unreadable record
      stops the loop with status 500 and the `KeyError` text, after the
      earlier records' work is done. Otherwise the status is 200, whatever
      the S3 calls did. */
  method Handle(records: Option<seq<Record>>, head: (string, string) -> Option<Option<string>>) returns (r: Reply)
    ensures r.statusCode == 200 || r.statusCode == 500
    ensures r.statusCode == 200 <==> records.Some? && forall i :: 0 <= i < |records.value| ==> Readable(records.value[i])
    ensures r.statusCode == 200 ==> r.body == "\"Static asset processed successfully\""
    ensures records.None? ==> r == Reply(500, "\"Error: 'Records'\"", [])
    ensures records.Some? ==>
      var n := FirstUnreadable(records.value);
      && r.actions == Actions(records.value[..n], head)
      && (n < |records.value| ==> r.body == "\"Error: " + MissingName(records.value[n]) + "\"")
  {
    if records.None? {
      return Reply(500, "\"Error: 'Records'\"", []);
    }
    var rs := records.value;
    var actions := [];
    var i := 0;
    while i < |rs|
      invariant i <= |rs|
      invariant forall j :: 0 <= j < i ==> Readable(rs[j])
      invariant actions == Actions(rs[..i], head)
    {
      if !Readable(rs[i]) {
        assert FirstUnreadable(rs) == i by { FirstUnreadableAt(rs, i); }
        return Reply(500, "\"Error: " + MissingName(rs[i]) + "\"", actions);
      }
      ActionsSnoc(rs[..i], rs[i], head);
      assert rs[..i + 1] == rs[..i] + [rs[i]];
      actions := actions + Dispatch(rs[i], head);
      i := i + 1;
    }
    assert rs[..i] == rs;
    FirstUnreadableAt(rs, |rs|);
    return Reply(200, "\"Static asset processed successfully\"", actions);
  }

  /** The actions of records `rs + [x]` are those of `rs` followed by `x`'s. */
  lemma {:induction false} ActionsSnoc(rs: seq<Record>, x: Record, head: (string, string) -> Option<Option<string>>)
    requires forall i :: 0 <= i < |rs| ==> Readable(rs[i])
    requires Readable(x)
    ensures Actions(rs + [x], head) == Actions(rs, head) + Dispatch(x, head)
    decreases |rs|
  {
    if |rs| == 0 {
      assert rs + [x] == [x];
      assert [x][1..] == [];
    } else {
      assert (rs + [x])[1..] == rs[1..] + [x];
      ActionsSnoc(rs[1..], x, head);
    }
  }

  /** When the first `i` records are readable and the next one is not (or
      there is none), the first unreadable record is at `i`. */
  lemma {:induction false} FirstUnreadableAt(rs: seq<Record>, i: nat)
    requires i <= |rs|
    requires forall j :: 0 <= j < i ==> Readable(rs[j])
    requires i < |rs| ==> !Readable(rs[i])
    ensures FirstUnreadable(rs) == i
    decreases i
  {
    if i > 0 {
      FirstUnreadableAt(rs[1..], i - 1);
    }
  }

  /** Every action belongs to one of the records, and every copy carries
      the Cache-Control its key calls for. */
  lemma {:induction false} ActionsFromRecords(rs: seq<Record>, head: (string, string) -> Option<Option<string>>)
    requires forall i :: 0 <= i < |rs| ==> Readable(rs[i])
    ensures forall a :: a in Actions(rs, head) ==>
      && (exists i :: 0 <= i < |rs| && a.bucket == rs[i].bucket.value && a.key == rs[i].key.value)
      && (a.Updated? ==> a.cacheControl == CacheControl(a.key, a.contentType))
    decreases |rs|
  {
    if |rs| > 0 {
      ActionsFromRecords(rs[1..], head);
      forall a | a in Actions(rs, head)
        ensures exists i :: 0 <= i < |rs| && a.bucket == rs[i].bucket.value && a.key == rs[i].key.value
      {
        if a in Dispatch(rs[0], head) {
          assert a.bucket == rs[0].bucket.value && a.key == rs[0].key.value;
        } else {
          assert a in Actions(rs[1..], head);
          var i :| 0 <= i < |rs[1..]| && a.bucket == rs[1..][i].bucket.value && a.key == rs[1..][i].key.value;
          assert rs[1..][i] == rs[i + 1];
        }
      }
    }
  }

  /** Records with no creation or removal event leave no action. */
  lemma {:induction false} ActionsIgnoreOthers(rs: seq<Record>, head: (string, string) -> Option<Option<string>>)
    requires forall i :: 0 <= i < |rs| ==> Readable(rs[i])
    ensures Actions(rs, head) == [] <==> forall i :: 0 <= i < |rs| ==>
      !StartsWith(rs[i].eventName.value, "ObjectCreated") && !StartsWith(rs[i].eventName.value, "ObjectRemoved")
    decreases |rs|
  {
    if |rs| > 0 {
      ActionsIgnoreOthers(rs[1..], head);
      assert forall i :: 1 <= i < |rs| ==> rs[1..][i - 1] == rs[i];
    }
  }
}
