/**
 * `lambda_handler`: turns one event envelope into one flat record, hands it
 * to the table, and answers 200 with the record's key or 500 with the error.
 */
module Handler {
  import opened Wrappers
  import opened Text
  import opened Identity
  import opened EventIds

  /** The `requestParameters` object of an S3 event detail. */
  datatype RequestParameters = RequestParameters(bucketName: Option<string>)

  /** The `detail` object: the keys the handler looks at, each possibly absent. */
  datatype Detail = Detail(
    requestParameters: Option<RequestParameters>,
    instanceId: Option<string>,           // key `instance-id`
    userIdentity: Option<Descriptor>)

  /** `{}`, what a missing `detail` defaults to. */
  const EmptyDetail := Detail(None, None, None)

  /** The event envelope: the top-level keys the handler reads. */
  datatype Envelope = Envelope(
    time: Option<string>,
    source: Option<string>,
    detailType: Option<string>,            // key `detail-type`
    region: Option<string>,
    detail: Option<Detail>)

  /**
   * What the handler gets from its surroundings: two separate readings of
   * the UTC clock (the ISO text taken for a missing `time`, and the whole
   * seconds taken for the key), Python's `hash` of the stringified event and
   * the event serialised as JSON.
   */
  datatype Runtime = Runtime(nowIso: string, nowSeconds: int, eventHash: int, serialized: string)

  /** The record stored in the table. */
  datatype Item = Item(
    eventId: string,
    eventTime: string,
    eventSource: string,
    eventName: string,
    resourceName: string,
    region: string,
    username: string,
    rawEvent: string)

  /** The JSON body of the response. */
  datatype Body =
    | Processed(message: string, eventId: string)
    | Failed(error: string, details: string)

  datatype Response = Response(statusCode: int, body: Body)

  const Unknown := "unknown"
  const S3 := "aws.s3"
  const Ec2 := "aws.ec2"

  /** The resource an event is about, by source; "unknown" when there is none. */
  function ResourceNameOf(source: string, detail: Detail): (r: string)
    ensures source != S3 && source != Ec2 ==> r == Unknown
    ensures source == S3 ==>
      (r == Unknown || (detail.requestParameters.Some? && detail.requestParameters.value.bucketName == Some(r) && r != ""))
    ensures (source == S3 && detail.requestParameters.Some? && detail.requestParameters.value.bucketName.Some?
             && detail.requestParameters.value.bucketName.value != "")
      ==> r == detail.requestParameters.value.bucketName.value
    ensures source == Ec2 ==> r == Unknown || detail.instanceId == Some(r)
    ensures source == Ec2 && detail.instanceId.Some? ==> r == detail.instanceId.value
  {
    if source == S3 then
      match detail.requestParameters
      case Some(RequestParameters(Some(bucket))) => Or(bucket, Unknown)
      case _ => Unknown
    else if source == Ec2 then detail.instanceId.GetOr(Unknown)
    else Unknown
  }

  /** The principal behind an event: only S3 and EC2 events look for one. */
  function UsernameOf(source: string, detail: Detail): (r: string)
    ensures r != ""
    ensures source != S3 && source != Ec2 ==> r == Unknown
    ensures detail.userIdentity == None && (source == S3 || source == Ec2) ==> r == "system"
  {
    if source == S3 || source == Ec2 then ExtractUsername(detail.userIdentity) else Unknown
  }

  /** The record the handler builds for `event`. */
  function Normalize(event: Envelope, rt: Runtime): (item: Item)
    ensures item.username != ""
    ensures |item.eventId| > |item.eventSource|
    ensures item.eventId[..|item.eventSource| + 1] == item.eventSource + "-"
  {
    var source := event.source.GetOr(Unknown);
    var detail := event.detail.GetOr(EmptyDetail);
    var id := EventIdOf(source, rt.nowSeconds, rt.eventHash);
    var username := UsernameOf(source, detail);
    assert |id| > |source| && id[..|source| + 1] == source + "-";
    assert username != "";
    Item(
      id,
      event.time.GetOr(rt.nowIso),
      source,
      event.detailType.GetOr(Unknown),
      ResourceNameOf(source, detail),
      event.region.GetOr(Unknown),
      username,
      rt.serialized)
  }

  /**
   * The handler. `failure` is the text of any exception raised in the
   * handler, typically by the write (`None` when none is raised); `written`
   * is the record the table holds afterwards, if any.
   */
  method LambdaHandler(event: Envelope, rt: Runtime, failure: Option<string>)
    returns (written: Option<Item>, response: Response)
    ensures failure.None? ==> written == Some(Normalize(event, rt))
    ensures failure.None? ==> response == Response(200, Processed("Event processed successfully", Normalize(event, rt).eventId))
    ensures failure.Some? ==> written == None
    ensures failure.Some? ==> response == Response(500, Failed("Failed to process event", failure.value))
  {
    var eventTime := event.time.GetOr(rt.nowIso);
    var eventSource := event.source.GetOr(Unknown);
    var eventName := event.detailType.GetOr(Unknown);
    var region := event.region.GetOr(Unknown);

    var resourceName := Unknown;
    var username := Unknown;

    var detail := event.detail.GetOr(EmptyDetail);

    if eventSource == S3 {
      if detail.requestParameters.Some? {
        var bucketName := detail.requestParameters.value.bucketName;
        if bucketName.Some? && bucketName.value != "" {
          resourceName := bucketName.value;
        }
      }
      username := ExtractUsername(detail.userIdentity);
    } else if eventSource == Ec2 {
      if detail.instanceId.Some? {
        resourceName := detail.instanceId.value;
      }
      username := ExtractUsername(detail.userIdentity);
    }

    assert resourceName == ResourceNameOf(eventSource, detail);
    assert username == UsernameOf(eventSource, detail);
    var item := Item(
      EventIdOf(eventSource, rt.nowSeconds, rt.eventHash),
      eventTime, eventSource, eventName, resourceName, region, username,
      rt.serialized);
    assert item == Normalize(event, rt);

    if failure.None? {
      written := Some(item);
      response := Response(200, Processed("Event processed successfully", item.eventId));
    } else {
      written := None;
      response := Response(500, Failed("Failed to process event", failure.value));
    }
  }

  /** `source`, `detail-type` and `region` pass through, defaulting to "unknown"; `time` defaults to the clock. */
  lemma PassThrough(event: Envelope, rt: Runtime)
    ensures var item := Normalize(event, rt);
      && item.eventSource == (if event.source.Some? then event.source.value else "unknown")
      && item.eventName == (if event.detailType.Some? then event.detailType.value else "unknown")
      && item.region == (if event.region.Some? then event.region.value else "unknown")
      && item.eventTime == (if event.time.Some? then event.time.value else rt.nowIso)
      && item.rawEvent == rt.serialized
  {
  }

  /** The key starts with the source and a `-`, and ends in a bucket number below 10000. */
  lemma EventIdShape(event: Envelope, rt: Runtime)
    ensures var item := Normalize(event, rt);
      && |item.eventId| > |item.eventSource|
      && item.eventId[..|item.eventSource| + 1] == item.eventSource + "-"
      && AllDigits(LastSegment(item.eventId, '-'))
      && ParseNat(LastSegment(item.eventId, '-')) < 10000
  {
    var h := rt.eventHash % Buckets;
    ParseNatToString(h);
  }

  /** For S3, the resource is the bucket name when present and non-empty, else "unknown". */
  lemma S3ResourceName(event: Envelope, rt: Runtime)
    requires event.source == Some("aws.s3")
    ensures var bucket := match event.detail
        case Some(Detail(Some(RequestParameters(Some(b))), _, _)) => b
        case _ => "";
      Normalize(event, rt).resourceName == if bucket != "" then bucket else "unknown"
  {
  }

  /** For EC2, the resource is `instance-id` whenever the key is present, even if empty. */
  lemma Ec2ResourceName(event: Envelope, rt: Runtime)
    requires event.source == Some("aws.ec2")
    ensures event.detail.Some? && event.detail.value.instanceId.Some? ==>
      Normalize(event, rt).resourceName == event.detail.value.instanceId.value
    ensures !(event.detail.Some? && event.detail.value.instanceId.Some?) ==>
      Normalize(event, rt).resourceName == "unknown"
  {
  }

  /** S3 and EC2 events take their username from `userIdentity` (missing: "system"). */
  lemma UsernameFromIdentity(event: Envelope, rt: Runtime)
    requires event.source == Some("aws.s3") || event.source == Some("aws.ec2")
    ensures Normalize(event, rt).username
         == ExtractUsername(if event.detail.Some? then event.detail.value.userIdentity else None)
  {
  }

  /**
   * Any other source (a missing one included) leaves resource and username
   * "unknown", never "system", whatever the detail holds.
   */
  lemma OtherSourceUnknown(event: Envelope, rt: Runtime)
    requires event.source != Some("aws.s3") && event.source != Some("aws.ec2")
    ensures Normalize(event, rt).resourceName == "unknown"
    ensures Normalize(event, rt).username == "unknown"
  {
  }

  /** An S3 event with bucket `my-bucket` and user `bob`. */
  lemma S3Example(rt: Runtime)
    ensures var event := Envelope(None, Some("aws.s3"), None, None,
        Some(Detail(Some(RequestParameters(Some("my-bucket"))), None, Some(map["userName" := "bob"]))));
      var item := Normalize(event, rt);
      item.resourceName == "my-bucket" && item.username == "bob" && item.eventSource == "aws.s3"
  {
    UserNameFirst(map["userName" := "bob"]);
  }

  /** An EC2 event with instance `i-123` and no identity, so user "system". */
  lemma Ec2Example(rt: Runtime)
    ensures var event := Envelope(None, Some("aws.ec2"), None, None, Some(Detail(None, Some("i-123"), None)));
      var item := Normalize(event, rt);
      item.resourceName == "i-123" && item.username == "system"
  {
  }

  /** An empty envelope `{}` still yields a record with every field filled. */
  lemma EmptyEnvelope(rt: Runtime)
    ensures var item := Normalize(Envelope(None, None, None, None, None), rt);
      && item.eventSource == "unknown" && item.eventName == "unknown" && item.region == "unknown"
      && item.resourceName == "unknown" && item.username == "unknown"
      && item.eventTime == rt.nowIso
      && item.eventId[..8] == "unknown-"
      && item.rawEvent == rt.serialized
  {
    var id := EventIdOf(Unknown, rt.nowSeconds, rt.eventHash);
    assert Normalize(Envelope(None, None, None, None, None), rt).eventId == id;
    UnknownKeyPrefix(id);
  }

  /** A key that starts with "unknown" and `-` starts with the literal "unknown-". */
  lemma UnknownKeyPrefix(id: string)
    requires |id| > |Unknown| && id[..|Unknown| + 1] == Unknown + "-"
    ensures id[..8] == "unknown-"
  {
  }
}
