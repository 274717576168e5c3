# Event normaliser: a Dafny model

This project models the core of a small cloud-event handler (`app.py`). The
handler receives one EventBridge/CloudTrail envelope describing an S3 or EC2
action. It derives a flat record from it (`EventId`, `EventTime`,
`EventSource`, `EventName`, `ResourceName`, `Region`, `Username`, `RawEvent`)
and writes that record to a DynamoDB table. It answers 200 with the record's
key, or 500 with the error text.

Modules:

- `Wrappers` (`wrappers.dfy`): `Option`, for JSON keys that may be absent.
- `Text` (`text.dfy`): the string operations the source relies on:
  - Python's `str.split(sep)` (`Split`), with its inverse `Join`.
  - `split(sep)[-1]` (`LastPart`), proved equal to an independent
    back-to-front definition (`LastSegment`). `LastSegment` is characterised
    by three properties that fix it uniquely.
  - The truthiness-based `or` on strings (`Or`).
  - Decimal printing of integers (`NatToString`, `IntToString`). Reading
    the digits back with `ParseNat` gives the number's magnitude, and the
    sign is the leading `-`.
- `Identity` (`identity.dfy`): `extract_username`. The identity descriptor is
  a `map<string, string>`, so "non-empty but none of the four keys" can be
  expressed.
- `EventIds` (`eventid.dfy`): the key `<source>-<seconds>-<hash % 10000>`.
  It comes with a decoder and a proof that the decoder recovers the parts.
- `Handler` (`handler.dfy`): the envelope, the record and the response.
  - `Normalize` is the record as a function of its inputs.
  - `LambdaHandler` is the handler as an imperative method. Like the source,
    it starts `resourceName`/`username` at "unknown" and overwrites them per
    source. It is proved to produce `Normalize`'s record.

Inputs the source takes from its environment become parameters (`Runtime`):
- the two separate reads of the UTC clock (line 25: ISO text; line 60: whole
  seconds);
- Python's process-randomised `hash(str(event))`;
- `json.dumps(event)`.

The outcome of the write to the table is a parameter too: `failure` is `None`
when `put_item` succeeds and `Some(text)` when an exception was raised.

Where the code does something a reader might not expect, the model follows the code:
- A missing `time` becomes the current time, not "unknown".
- An identity whose only usable key is an empty `type` gives "system", not
  the empty string.
- An EC2 `instance-id` that is present but empty is used as is.

## Model

| member | source | states |
|---|---|---|
| `Text.Split` | app.py:104-105 | `str.split` with one separator: at least one part, no part contains the separator, a single part exactly when the separator does not occur, and then that part is the whole string |
| `Text.JoinSplit` | app.py:104-105 | joining the parts of a split with the separator gives back the original string |
| `Text.LastSegment` | app.py:104-105 | the segment after the last separator: a suffix of the input, free of the separator, preceded by the separator unless it is the whole input |
| `Text.LastSegmentUnique` | app.py:104-105 | any suffix with those three properties equals `LastSegment`, so they specify it completely |
| `Text.SplitLastIsLastSegment` | app.py:104-105 | the last part of `s.split(sep)` equals the text after the last `sep`, or all of `s` when `sep` does not occur |
| `Text.LastPart` | app.py:104-105 | `s.split(sep)[-1]` is the segment after the last separator (`LastSegment`) |
| `Text.Or` | app.py:102-106 | Python `a or b` on strings: `a` when non-empty, else `b`; the result is non-empty iff one of them is |
| `Text.NatToString` | app.py:60 | decimal text of a natural number: non-empty, digits only, no `-`, no leading zero |
| `Text.IntToString` | app.py:60 | f-string printing of an int: non-empty, starting with `-` exactly for negative values; the rest is digits, with no leading zero, whose value is the number's magnitude |
| `Text.ParseNatToString` | app.py:60 | reading back the decimal text of `n` gives `n` |
| `Identity.SegmentStep` | app.py:104-105 | one delimited step (`arn` with `/`, `principalId` with `:`): "" without the key, else the text after the key's last separator (all of the value when it has none), never containing the separator |
| `Identity.ExtractUsername` | app.py:94-109 | the username is never empty; an absent or empty descriptor gives "system" |
| `Identity.UserNameFirst` | app.py:102-103 | a non-empty `userName` is returned whatever `arn`, `principalId` and `type` hold |
| `Identity.ArnSecond` | app.py:104 | without a usable `userName`, the text after the last `/` of `arn` (all of it when it has no `/`) is returned when non-empty |
| `Identity.ArnFallsThrough` | app.py:104 | an `arn` that is empty or ends in `/` yields nothing, so the chain moves on |
| `Identity.PrincipalThird` | app.py:105 | when the first two steps yield nothing, the text after the last `:` of `principalId` is returned when non-empty |
| `Identity.TypeLast` | app.py:106-109 | when the first three steps yield nothing: `type` if non-empty, "unknown" if `type` is missing, "system" if `type` is empty |
| `Identity.NoKnownKeys` | app.py:98-106 | a descriptor with none of the four keys gives "unknown" when non-empty and "system" when empty |
| `Identity.ExtractUsernameOrigin` | app.py:102-109 | the result is always "system", "unknown", `userName`, the last segment of `arn` or `principalId`, or `type` |
| `Identity.UserNameExample` | app.py:102-103 | `{"userName": "alice"}` gives "alice" |
| `Identity.ArnExample` | app.py:104 | `{"arn": "arn:aws:iam::123:role/deploy"}` gives "deploy" |
| `Identity.PrincipalExample` | app.py:105 | `{"principalId": "AID:session1"}` gives "session1" |
| `Identity.TypeExamples` | app.py:106-109 | `{"type": "AssumedRole"}` gives "AssumedRole" and `{"type": ""}` gives "system" |
| `EventIds.EventIdOf` | app.py:60 | the key starts with the source and `-`; its text after the last `-` is a digit string whose value is `hash % 10000`, below 10000 also for negative hashes |
| `EventIds.CutLast` | app.py:60 | cutting at the last `-` gives parts that rebuild the string, with no `-` after the cut; no cut exactly when there is no `-` |
| `EventIds.DecodeEventIdOf` | app.py:60 | a key made at a non-negative time decodes back to its source, seconds and `hash % 10000` |
| `EventIds.EventIdCollision` | app.py:60 | for one source and any one second (negative included), two keys are equal exactly when the hashes agree modulo 10000 |
| `Handler.ResourceNameOf` | app.py:31-51 | any source other than `aws.s3`/`aws.ec2` gives "unknown"; for `aws.s3` the result is "unknown" or a non-empty `requestParameters.bucketName`, and it is that bucket name whenever it is present and non-empty; for `aws.ec2` it is the `instance-id` whenever that key is present, else "unknown" |
| `Handler.UsernameOf` | app.py:32-56 | never empty; "unknown" for sources other than `aws.s3`/`aws.ec2`; "system" for those two when `userIdentity` is missing |
| `Handler.Normalize` | app.py:25-68 | the record: its `Username` is never empty and its `EventId` starts with its `EventSource` followed by `-` |
| `Handler.LambdaHandler` | app.py:15-92 | on success the record written is `Normalize`'s and the response is 200 with that record's `EventId`; on any exception nothing is written and the response is 500 with "Failed to process event" and the exception text |
| `Handler.PassThrough` | app.py:25-28 | `EventSource`, `EventName`, `Region` are `source`, `detail-type`, `region` or "unknown"; `EventTime` is `time` or the current clock text; `RawEvent` is the serialised envelope |
| `Handler.EventIdShape` | app.py:59-60 | the record's key begins with its `EventSource` and `-`, and its last `-` component is a digit string whose value is below 10000 |
| `Handler.S3ResourceName` | app.py:37-42 | for `aws.s3`, `ResourceName` is `requestParameters.bucketName` when that path exists and is non-empty, otherwise "unknown" |
| `Handler.Ec2ResourceName` | app.py:48-51 | for `aws.ec2`, `ResourceName` is `instance-id` whenever the key is present (even when empty), otherwise "unknown" |
| `Handler.UsernameFromIdentity` | app.py:44-56 | for `aws.s3` and `aws.ec2`, `Username` is `extract_username` of `userIdentity`, where a missing one counts as `{}` |
| `Handler.OtherSourceUnknown` | app.py:31-56 | for any other source, a missing one included, `ResourceName` and `Username` stay "unknown" (never "system"), whatever `detail` holds |
| `Handler.S3Example` | app.py:37-46 | an S3 event with bucket `my-bucket` and user `bob` gives `ResourceName` "my-bucket", `Username` "bob", `EventSource` "aws.s3" |
| `Handler.Ec2Example` | app.py:48-56 | an EC2 event with `instance-id` "i-123" and no identity gives `ResourceName` "i-123" and `Username` "system" |
| `Handler.EmptyEnvelope` | app.py:25-67 | the empty envelope `{}` gives a record whose fields are all "unknown", except `EventTime`, which is the clock text, the key, which starts with "unknown-", and `RawEvent`, which is the serialised envelope |

## Left out

- DynamoDB (`boto3.resource`, `Table`, `put_item`) is a foreign service. Its only effect in the model is the `failure` parameter, which selects between "record written" and "nothing written".
- Logging of the received event, of the stored key and of errors is a side effect with no functional content.
- `json.dumps` of the event (`RawEvent`) and of the response bodies is library serialisation. The serialised event is an input (`Runtime.serialized`) and the body is a datatype, so no JSON round-trip is stated.
- `datetime.utcnow()` and Python's `hash()` are nondeterministic. They are inputs; only the range `0..9999` and the shape of the key are stated about them.
- Exceptions from ill-typed input are not modelled as such. All fields are taken to be strings or objects. Such exceptions, like a failed write, reach the model only through the `failure` parameter. The cases are:
  - a JSON `null` `detail` raises `TypeError` for `aws.s3` and `aws.ec2` events (`'requestParameters' in None`, `'instance-id' in None`); other sources never look at `detail`;
  - a `null` `requestParameters` raises `AttributeError` for `aws.s3` events;
  - a `null` `arn` or `principalId` in a non-empty identity raises `AttributeError` when the earlier steps yield nothing.
  A `null` `userIdentity` is not among them: it is falsy, gives "system", and is modelled as a missing identity.
- Values of identity keys other than the four that are read are modelled as strings. Only their presence (non-emptiness of the descriptor) matters.
- `EventIds.DecodeEventIdOf`: the decoding round trip is stated for non-negative seconds only. A negative time prints with its own `-` and the decoder would cut there. The key's prefix and last component are stated for all times.
