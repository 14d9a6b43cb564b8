/** The `moveAccessLogs` handler: for each object-created record, find the first
    `YYYY-MM-DD-HH` timestamp in the object key, copy the object to a Hive-style
    `year=/month=/day=/hour=` key under the target prefix, and delete the original once the
    copy has succeeded. The S3 client is not called: the requests the handler issues are its
    output, and the reply to each copy comes with the record. */
module AccessLogs {
  import opened Wrappers
  import opened Decimal

  // ---------------------------------------------------------------------------
  // The timestamp pattern `[^\d](\d{4})-(\d{2})-(\d{2})-(\d{2})[^\d]`

  /** Width of one match of the timestamp pattern. */
  const MatchWidth: nat := 15

  /** The pattern matches the 15 characters of `key` that start at `i`. */
  predicate DateAt(key: string, i: nat) {
    && i + MatchWidth <= |key|
    && !IsDigit(key[i])
    && AllDigits(key[i + 1..i + 5]) && key[i + 5] == '-'
    && AllDigits(key[i + 6..i + 8]) && key[i + 8] == '-'
    && AllDigits(key[i + 9..i + 11]) && key[i + 11] == '-'
    && AllDigits(key[i + 12..i + 14])
    && !IsDigit(key[i + 14])
  }

  /** The leftmost match at or after `from`, as `exec` of a fresh global regular expression
      finds it (its `lastIndex` starts at 0). */
  function FindDate(key: string, from: nat): (r: Option<nat>)
    ensures r.Some? ==> from <= r.value && DateAt(key, r.value)
    ensures r.Some? ==> forall j :: from <= j < r.value ==> !DateAt(key, j)
    ensures r.None? ==> forall j :: from <= j ==> !DateAt(key, j)
    decreases |key| - from
  {
    if from + MatchWidth > |key| then None
    else if DateAt(key, from) then Some(from)
    else FindDate(key, from + 1)
  }

  /** The four capture groups of the match at `i`. */
  datatype Timestamp = Timestamp(year: string, month: string, day: string, hour: string)

  function GroupsAt(key: string, i: nat): Timestamp
    requires DateAt(key, i)
  {
    Timestamp(key[i + 1..i + 5], key[i + 6..i + 8], key[i + 9..i + 11], key[i + 12..i + 14])
  }

  // ---------------------------------------------------------------------------
  // The filename pattern `[^/]+$`

  /** Where the last path segment of `key` starts: just after its last `/`, or 0. */
  function SegmentStart(key: string): (s: nat)
    ensures s <= |key|
    ensures forall j :: s <= j < |key| ==> key[j] != '/'
    ensures s == 0 || key[s - 1] == '/'
  {
    if key == [] then 0
    else if key[|key| - 1] == '/' then |key|
    else SegmentStart(key[..|key| - 1])
  }

  /** A match of `[^/]+$` can start at `s`. */
  predicate SlashFreeToEnd(key: string, s: nat) {
    s < |key| && forall j :: s <= j < |key| ==> key[j] != '/'
  }

  /** What the filename expression finds: the last path segment, or nothing (`null`) when
      the key is empty or ends in `/`. */
  function Filename(key: string): (r: Option<string>)
    ensures r.Some? <==> |key| > 0 && key[|key| - 1] != '/'
    ensures r.Some? ==> && |r.value| <= |key| && SlashFreeToEnd(key, |key| - |r.value|)
                        && r.value == key[|key| - |r.value|..]
                        && (forall s :: SlashFreeToEnd(key, s) ==> |key| - |r.value| <= s)
  {
    var s := SegmentStart(key);
    if s == |key| then None else Some(key[s..])
  }

  // ---------------------------------------------------------------------------
  // The target key

  /** The target prefix as the template renders it; an unset variable renders as
      "undefined". */
  function PrefixText(prefix: Option<string>): string {
    if prefix.None? then "undefined" else prefix.value
  }

  function TargetKey(prefix: Option<string>, ts: Timestamp, filename: string): string {
    PrefixText(prefix) + "year=" + ts.year + "/month=" + ts.month + "/day=" + ts.day +
    "/hour=" + ts.hour + "/" + filename
  }

  /** What happens to one key: it is left alone (no timestamp), indexing the missing
      filename match throws a `TypeError`, or it moves to a target key. */
  datatype Route = Skip | NoFilename | Move(targetKey: string)

  function RouteOf(prefix: Option<string>, key: string): Route {
    match FindDate(key, 0)
    case None => Skip
    case Some(i) =>
      match Filename(key)
      case None => NoFilename
      case Some(name) => Move(TargetKey(prefix, GroupsAt(key, i), name))
  }

  /** A key without a timestamp is never moved. */
  lemma NoTimestampSkips(prefix: Option<string>, key: string)
    ensures RouteOf(prefix, key) == Skip <==> forall i :: !DateAt(key, i)
  {
    if RouteOf(prefix, key) != Skip {
      var i := FindDate(key, 0).value;
      assert DateAt(key, i);
    }
  }

  /** A key is moved exactly when it has a timestamp and a last segment; the values come
      from the leftmost timestamp, verbatim. */
  lemma LeftmostTimestampWins(prefix: Option<string>, key: string, i: nat)
    requires DateAt(key, i) && forall j: nat :: j < i ==> !DateAt(key, j)
    ensures Filename(key).None? ==> RouteOf(prefix, key) == NoFilename
    ensures Filename(key).Some? ==>
      RouteOf(prefix, key) == Move(TargetKey(prefix, GroupsAt(key, i), Filename(key).value))
  {
    var r := FindDate(key, 0);
    assert r.Some?;
    assert r.value == i;
  }

  /** A key that ends in `/` but holds a timestamp throws. */
  lemma TrailingSlashThrows(prefix: Option<string>, key: string)
    requires exists i :: DateAt(key, i)
    requires |key| > 0 && key[|key| - 1] == '/'
    ensures RouteOf(prefix, key) == NoFilename
  {
    NoTimestampSkips(prefix, key);
  }

  /** The moved object keeps its filename: the last segment of the target key is the last
      segment of the source key. */
  lemma MoveKeepsFilename(prefix: Option<string>, key: string)
    requires RouteOf(prefix, key).Move?
    ensures Filename(RouteOf(prefix, key).targetKey) == Filename(key)
  {
    var i := FindDate(key, 0).value;
    var name := Filename(key).value;
    var ts := GroupsAt(key, i);
    var head := PrefixText(prefix) + "year=" + ts.year + "/month=" + ts.month + "/day=" + ts.day + "/hour=" + ts.hour;
    var t := head + "/" + name;
    assert RouteOf(prefix, key).targetKey == t;
    SegmentAfterSlash(head, name);
  }

  lemma {:induction false} SegmentAfterSlash(head: string, name: string)
    requires forall j :: 0 <= j < |name| ==> name[j] != '/'
    ensures SegmentStart(head + "/" + name) == |head| + 1
    decreases |name|
  {
    var t := head + "/" + name;
    if name == [] {
      assert t == head + "/";
      assert t[|t| - 1] == '/';
    } else {
      var init := name[..|name| - 1];
      assert t[|t| - 1] == name[|name| - 1] != '/';
      assert t[..|t| - 1] == head + "/" + init;
      assert forall j :: 0 <= j < |init| ==> init[j] == name[j];
      SegmentAfterSlash(head, init);
    }
  }

  /** The timestamp as CloudFront writes it: four, two, two and two digits. */
  predicate WellFormedStamp(ts: Timestamp) {
    && |ts.year| == 4 && AllDigits(ts.year) && |ts.month| == 2 && AllDigits(ts.month)
    && |ts.day| == 2 && AllDigits(ts.day) && |ts.hour| == 2 && AllDigits(ts.hour)
  }

  function StampText(ts: Timestamp): string {
    ts.year + "-" + ts.month + "-" + ts.day + "-" + ts.hour
  }

  /** A CloudFront log file `dir/ID.YYYY-MM-DD-HH.unique.gz` (the directory and the
      distribution id without `-`) moves to `year=YYYY/month=MM/day=DD/hour=HH/` under the
      prefix, keeping its file name. No range is checked, so month 13 or hour 99 move as
      written. */
  lemma CloudFrontKeyMoves(prefix: Option<string>, dir: string, id: string, ts: Timestamp, tail: string)
    requires '-' !in dir && '-' !in id && '/' !in id && '/' !in tail
    requires WellFormedStamp(ts)
    ensures var name := id + "." + StampText(ts) + "." + tail;
      RouteOf(prefix, dir + "/" + name) == Move(TargetKey(prefix, ts, name))
  {
    var name := id + "." + StampText(ts) + "." + tail;
    var key := dir + "/" + name;
    var head := dir + "/" + id;
    var rest := "." + StampText(ts) + "." + tail;
    assert name == id + rest;
    assert dir + "/" + (id + rest) == (dir + "/" + id) + rest;
    assert key == head + rest;
    StampWindow(head, ts, tail);
    NoEarlierStamp(head, rest);
    LeftmostTimestampWins(prefix, key, |head|);
    NameSlashFree(id, ts, tail);
    SegmentAfterSlash(dir, name);
    assert key[|dir| + 1..] == name;
  }

  lemma StampWindow(head: string, ts: Timestamp, tail: string)
    requires WellFormedStamp(ts)
    ensures var key := head + ("." + StampText(ts) + "." + tail);
      DateAt(key, |head|) && GroupsAt(key, |head|) == ts
  {
    var window := "." + ts.year + "-" + ts.month + "-" + ts.day + "-" + ts.hour + ".";
    var key := head + ("." + StampText(ts) + "." + tail);
    var i := |head|;
    assert key == head + window + tail;
    assert window[1..5] == ts.year && window[6..8] == ts.month;
    assert window[9..11] == ts.day && window[12..14] == ts.hour;
    assert key[i..i + MatchWidth] == window;
  }

  /** No match starts before a `.` that follows a `-`-free head. */
  lemma NoEarlierStamp(head: string, rest: string)
    requires '-' !in head && |rest| > 0 && rest[0] == '.'
    ensures forall j: nat :: j < |head| ==> !DateAt(head + rest, j)
  {
    var key := head + rest;
    var i := |head|;
    forall j: nat | j < i
      ensures !DateAt(key, j)
    {
      if j + 5 < i {
        assert key[j + 5] == head[j + 5];
        assert head[j + 5] in head;
      } else if j + 5 > i && j + MatchWidth <= |key| {
        assert key[j + 1..j + 5][i - j - 1] == key[i] == '.';
      } else if j + 5 == i {
        assert key[j + 5] == '.';
      }
    }
  }

  lemma NameSlashFree(id: string, ts: Timestamp, tail: string)
    requires '/' !in id && '/' !in tail && WellFormedStamp(ts)
    ensures var name := id + "." + StampText(ts) + "." + tail;
      forall k :: 0 <= k < |name| ==> name[k] != '/'
  {
    var stamp := StampText(ts);
    var name := id + "." + stamp + "." + tail;
    forall k | 0 <= k < |name|
      ensures name[k] != '/'
    {
      assert name[k] in name;
      if name[k] in stamp {
        var m :| 0 <= m < |stamp| && stamp[m] == name[k];
        if m < 4 {
          assert stamp[m] == ts.year[m];
        } else if 4 < m < 7 {
          assert stamp[m] == ts.month[m - 5];
        } else if 7 < m < 10 {
          assert stamp[m] == ts.day[m - 8];
        } else if 10 < m {
          assert stamp[m] == ts.hour[m - 11];
        }
      }
    }
  }

  /** A timestamp at the very start of the key has no character before it, so the pattern
      cannot match there; with no match further on, the key is skipped. */
  lemma TimestampAtStartSkipped(prefix: Option<string>, ts: Timestamp, rest: string)
    requires WellFormedStamp(ts)
    ensures !DateAt(StampText(ts) + rest, 0)
    ensures (forall j: nat :: 0 < j ==> !DateAt(StampText(ts) + rest, j)) ==>
      RouteOf(prefix, StampText(ts) + rest) == Skip
  {
    var key := StampText(ts) + rest;
    assert key[0] == ts.year[0];
    assert IsDigit(key[0]);
    NoTimestampSkips(prefix, key);
  }

  // ---------------------------------------------------------------------------
  // The handler

  /** The reply to a `CopyObject` request: the copy promise resolves or rejects. */
  datatype CopyReply = Copied | CopyFailed(reason: string)

  /** One object-created record, with the reply its copy will get. */
  datatype Record = Record(bucket: string, key: string, copyReply: CopyReply)

  datatype S3Request =
    | CopyObject(bucket: string, copySource: string, key: string)
    | DeleteObject(bucket: string, key: string)

  /** The requests and callback errors of the records handled so far, and whether the
      handler threw. */
  datatype Effects = Effects(requests: seq<S3Request>, errors: seq<string>, threw: bool)

  function CopyError(key: string, reason: string): string {
    "Error while copying " + key + ": " + reason
  }

  /** Copy within the same bucket; then, once the copy has succeeded, delete the source
      key. */
  function MoveRequests(rec: Record, target: string): (rs: seq<S3Request>)
    ensures |rs| == (if rec.copyReply.Copied? then 2 else 1)
    ensures rs[0] == CopyObject(rec.bucket, rec.bucket + "/" + rec.key, target)
    ensures rec.copyReply.Copied? ==> rs[1] == DeleteObject(rec.bucket, rec.key)
    ensures forall x :: x in rs && x.DeleteObject? ==>
      rec.copyReply.Copied? && x == DeleteObject(rec.bucket, rec.key) && x == rs[1]
  {
    var copy := CopyObject(rec.bucket, rec.bucket + "/" + rec.key, target);
    if rec.copyReply.Copied? then [copy, DeleteObject(rec.bucket, rec.key)] else [copy]
  }

  /** A failed copy is reported to the callback. */
  function MoveErrors(rec: Record): seq<string> {
    if rec.copyReply.Copied? then [] else [CopyError(rec.key, rec.copyReply.reason)]
  }

  /** The records in order; a `TypeError` stops the mapping at its record, and the
      requests of the earlier records stand. */
  function Run(prefix: Option<string>, records: seq<Record>): Effects
    decreases |records|
  {
    if records == [] then Effects([], [], false)
    else
      var e := Run(prefix, records[..|records| - 1]);
      var rec := records[|records| - 1];
      if e.threw then e
      else
        match RouteOf(prefix, rec.key)
        case Skip => e
        case NoFilename => e.(threw := true)
        case Move(target) => Effects(e.requests + MoveRequests(rec, target), e.errors + MoveErrors(rec), false)
  }

  method Handler(prefix: Option<string>, records: seq<Record>) returns (requests: seq<S3Request>, errors: seq<string>, threw: bool)
    ensures Effects(requests, errors, threw) == Run(prefix, records)
  {
    requests, errors, threw := [], [], false;
    var i := 0;
    while i < |records|
      invariant 0 <= i <= |records|
      invariant Run(prefix, records[..i]) == Effects(requests, errors, false)
    {
      var rec := records[i];
      assert records[..i + 1][..i] == records[..i];
      match RouteOf(prefix, rec.key) {
        case Skip =>
        case NoFilename =>
          ThrowStops(prefix, records, i + 1);
          return requests, errors, true;
        case Move(target) =>
          var source := rec.bucket + "/" + rec.key;
          requests := requests + [CopyObject(rec.bucket, source, target)];
          match rec.copyReply {
            case Copied =>
              requests := requests + [DeleteObject(rec.bucket, rec.key)];
            case CopyFailed(reason) =>
              errors := errors + [CopyError(rec.key, reason)];
          }
      }
      i := i + 1;
    }
    assert records[..i] == records;
  }

  /** Once the handler has thrown, later records change nothing. */
  lemma {:induction false} ThrowStops(prefix: Option<string>, records: seq<Record>, n: nat)
    requires n <= |records| && Run(prefix, records[..n]).threw
    ensures Run(prefix, records) == Run(prefix, records[..n])
    decreases |records| - n
  {
    if n < |records| {
      assert records[..n + 1][..n] == records[..n];
      ThrowStops(prefix, records, n + 1);
    } else {
      assert records[..n] == records;
    }
  }

  /** Every request belongs to the moves of a record with a timestamp and a filename. */
  lemma {:induction false} RequestsComeFromRecords(prefix: Option<string>, records: seq<Record>)
    ensures forall x :: x in Run(prefix, records).requests ==>
      exists rec :: rec in records && RouteOf(prefix, rec.key).Move? &&
        x in MoveRequests(rec, RouteOf(prefix, rec.key).targetKey)
    decreases |records|
  {
    if records != [] {
      var init := records[..|records| - 1];
      var last := records[|records| - 1];
      var e := Run(prefix, init);
      RequestsComeFromRecords(prefix, init);
      forall x | x in Run(prefix, records).requests
        ensures exists rec :: (rec in records && RouteOf(prefix, rec.key).Move? &&
                                x in MoveRequests(rec, RouteOf(prefix, rec.key).targetKey))
      {
        if x in e.requests {
          var rec :| rec in init && RouteOf(prefix, rec.key).Move? &&
            x in MoveRequests(rec, RouteOf(prefix, rec.key).targetKey);
          assert rec in records;
        } else {
          assert last in records;
        }
      }
    }
  }

  /** Every delete comes right after a copy, in the same bucket, whose source is the
      deleted key. */
  predicate CopyBeforeEachDelete(rs: seq<S3Request>) {
    forall j :: 0 <= j < |rs| && rs[j].DeleteObject? ==>
      0 < j && rs[j - 1] == CopyObject(rs[j].bucket, rs[j].bucket + "/" + rs[j].key, rs[j - 1].key)
  }

  lemma AppendMoves(rs: seq<S3Request>, rec: Record, target: string)
    requires CopyBeforeEachDelete(rs)
    ensures CopyBeforeEachDelete(rs + MoveRequests(rec, target))
  {
    var moves := MoveRequests(rec, target);
    var all := rs + moves;
    forall j | 0 <= j < |all| && all[j].DeleteObject?
      ensures 0 < j && all[j - 1] == CopyObject(all[j].bucket, all[j].bucket + "/" + all[j].key, all[j - 1].key)
    {
      if j < |rs| {
        assert all[j] == rs[j] && all[j - 1] == rs[j - 1];
      } else {
        assert all[j] == moves[j - |rs|];
        assert j - |rs| == 1;
        assert all[j - 1] == moves[0];
      }
    }
  }

  /** In the model's record-by-record order, every delete comes right after the copy of the
      same object; `DeleteOnlyAfterCopied` adds that this copy succeeded. */
  lemma {:induction false} DeleteFollowsItsCopy(prefix: Option<string>, records: seq<Record>)
    ensures CopyBeforeEachDelete(Run(prefix, records).requests)
    decreases |records|
  {
    if records != [] {
      var init := records[..|records| - 1];
      var last := records[|records| - 1];
      var e := Run(prefix, init);
      DeleteFollowsItsCopy(prefix, init);
      if !e.threw && RouteOf(prefix, last.key).Move? {
        AppendMoves(e.requests, last, RouteOf(prefix, last.key).targetKey);
      } else {
        assert Run(prefix, records).requests == e.requests;
      }
    }
  }

  /** An object is deleted only when a record names it, its key has a timestamp and a
      filename, and its copy succeeded: a log whose copy failed is never deleted. */
  lemma DeleteOnlyAfterCopied(prefix: Option<string>, records: seq<Record>, bucket: string, key: string)
    requires DeleteObject(bucket, key) in Run(prefix, records).requests
    ensures exists rec ::
      rec in records && rec.bucket == bucket && rec.key == key && RouteOf(prefix, rec.key).Move? && rec.copyReply.Copied?
  {
    RequestsComeFromRecords(prefix, records);
    var rec :| rec in records && RouteOf(prefix, rec.key).Move? &&
      DeleteObject(bucket, key) in MoveRequests(rec, RouteOf(prefix, rec.key).targetKey);
    assert rec.bucket == bucket && rec.key == key && rec.copyReply.Copied?;
  }

  /** A key without a timestamp is neither copied nor deleted. */
  lemma SkippedKeysUntouched(prefix: Option<string>, records: seq<Record>, bucket: string, key: string)
    requires RouteOf(prefix, key) == Skip
    ensures DeleteObject(bucket, key) !in Run(prefix, records).requests
    ensures forall t :: CopyObject(bucket, bucket + "/" + key, t) !in Run(prefix, records).requests
  {
    RequestsComeFromRecords(prefix, records);
    var rs := Run(prefix, records).requests;
    forall x | x in rs
      ensures x != DeleteObject(bucket, key)
      ensures x.CopyObject? && x.bucket == bucket ==> x.copySource != bucket + "/" + key
    {
      var rec :| rec in records && RouteOf(prefix, rec.key).Move? &&
        x in MoveRequests(rec, RouteOf(prefix, rec.key).targetKey);
      assert rec.key != key;
      MovesOfOtherKey(rec, RouteOf(prefix, rec.key).targetKey, bucket, key, x);
    }
  }

  lemma MovesOfOtherKey(rec: Record, target: string, bucket: string, key: string, x: S3Request)
    requires rec.key != key && x in MoveRequests(rec, target)
    ensures x != DeleteObject(bucket, key)
    ensures x.CopyObject? && x.bucket == bucket ==> x.copySource != bucket + "/" + key
  {
    CopySourceDeterminesKey(rec.bucket, rec.key, key);
  }

  lemma CopySourceDeterminesKey(bucket: string, k1: string, k2: string)
    ensures bucket + "/" + k1 == bucket + "/" + k2 <==> k1 == k2
  {
    var p := bucket + "/";
    if p + k1 == p + k2 {
      assert k1 == (p + k1)[|p|..];
      assert k2 == (p + k2)[|p|..];
    }
  }

  /** Each callback error reports a failed copy of a record with a timestamp. */
  lemma {:induction false} ErrorsAreFailedCopies(prefix: Option<string>, records: seq<Record>)
    ensures forall e :: e in Run(prefix, records).errors ==>
      exists rec :: rec in records && RouteOf(prefix, rec.key).Move? && rec.copyReply.CopyFailed? &&
        e == CopyError(rec.key, rec.copyReply.reason)
    decreases |records|
  {
    if records != [] {
      ErrorsAreFailedCopies(prefix, records[..|records| - 1]);
      assert forall rec :: rec in records[..|records| - 1] ==> rec in records;
    }
  }

  /** When no record throws, every failed copy of a record with a timestamp is reported to
      the callback. */
  lemma {:induction false} EveryFailedCopyReported(prefix: Option<string>, records: seq<Record>)
    requires !Run(prefix, records).threw
    ensures forall rec :: rec in records && RouteOf(prefix, rec.key).Move? && rec.copyReply.CopyFailed? ==>
      CopyError(rec.key, rec.copyReply.reason) in Run(prefix, records).errors
    decreases |records|
  {
    if records != [] {
      var init := records[..|records| - 1];
      var last := records[|records| - 1];
      var e := Run(prefix, init);
      var es := Run(prefix, records).errors;
      assert !e.threw;
      EveryFailedCopyReported(prefix, init);
      if RouteOf(prefix, last.key).Move? {
        assert es == e.errors + MoveErrors(last);
        if last.copyReply.CopyFailed? {
          assert MoveErrors(last)[0] in es;
        }
      } else {
        assert es == e.errors;
      }
      forall rec | rec in records && RouteOf(prefix, rec.key).Move? && rec.copyReply.CopyFailed?
        ensures CopyError(rec.key, rec.copyReply.reason) in es
      {
        if rec != last {
          assert rec in init;
        }
      }
    }
  }

  /** When no record throws, every record with a timestamp has its copy issued, and its
      delete when the copy succeeded. */
  lemma {:induction false} EveryLogFileCopied(prefix: Option<string>, records: seq<Record>)
    requires !Run(prefix, records).threw
    ensures forall rec :: rec in records && RouteOf(prefix, rec.key).Move? ==>
      CopyObject(rec.bucket, rec.bucket + "/" + rec.key, RouteOf(prefix, rec.key).targetKey) in Run(prefix, records).requests
    ensures forall rec :: rec in records && RouteOf(prefix, rec.key).Move? && rec.copyReply.Copied? ==>
      DeleteObject(rec.bucket, rec.key) in Run(prefix, records).requests
    decreases |records|
  {
    if records != [] {
      var init := records[..|records| - 1];
      var last := records[|records| - 1];
      var e := Run(prefix, init);
      var rs := Run(prefix, records).requests;
      assert !e.threw;
      EveryLogFileCopied(prefix, init);
      var route := RouteOf(prefix, last.key);
      if route.Move? {
        var moves := MoveRequests(last, route.targetKey);
        assert rs == e.requests + moves;
        assert moves[0] in rs;
        if last.copyReply.Copied? {
          assert moves[1] in rs;
        }
      } else {
        assert rs == e.requests;
      }
      forall rec | rec in records && RouteOf(prefix, rec.key).Move?
        ensures CopyObject(rec.bucket, rec.bucket + "/" + rec.key, RouteOf(prefix, rec.key).targetKey) in rs
        ensures rec.copyReply.Copied? ==> DeleteObject(rec.bucket, rec.key) in rs
      {
        if rec != last {
          assert rec in init;
        }
      }
    }
  }
}
