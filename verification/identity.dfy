/**
 * `extract_username`: the name of the principal behind an event, picked from
 * its identity descriptor (the `userIdentity` object of the event detail) by
 * a fixed first-match priority.
 */
module Identity {
  import opened Wrappers
  import opened Text

  /**
   * An identity descriptor: a JSON object whose keys of interest are
   * `userName`, `arn`, `principalId` and `type`. Other keys (such as
   * `accountId`) matter only in that they make the object non-empty.
   */
  type Descriptor = map<string, string>

  /**
   * `d.get(key, default)`: the same default rule as `Option.GetOr`, applied
   * to a key of a descriptor rather than to an optional field.
   */
  function Get(d: Descriptor, key: string, default: string): string {
    if key in d then d[key] else default
  }

  /**
   * One step of the chain for a delimited key (`arn` with `/`, `principalId`
   * with `:`): `d.get(key, '').split(sep)[-1]`, the text after the last
   * separator, or "" when the key is absent (the default '' splits into
   * the single part '').
   */
  function SegmentStep(d: Descriptor, key: string, sep: char): (r: string)
    ensures sep !in r
    ensures key !in d ==> r == ""
    ensures key in d ==> r == LastSegment(d[key], sep)
    ensures key in d && sep !in d[key] ==> r == d[key]
  {
    if key in d then LastPart(d[key], sep) else ""
  }

  /**
   * `extract_username(user_identity)`. An absent (or null) or empty
   * descriptor gives "system"; otherwise the first non-empty of `userName`,
   * the `arn` step and the `principalId` step, else `type` (default
   * "unknown"); an empty outcome also becomes "system". A missing `userName`
   * is `None` in the source, which is as falsy as `""`.
   */
  function ExtractUsername(identity: Option<Descriptor>): (r: string)
    ensures r != ""
    ensures identity.None? ==> r == "system"
    ensures identity.Some? && identity.value == map[] ==> r == "system"
  {
    if identity.None? || identity.value == map[] then "system"
    else
      var d := identity.value;
      var username := Or(Get(d, "userName", ""),
                      Or(SegmentStep(d, "arn", '/'),
                      Or(SegmentStep(d, "principalId", ':'),
                         Get(d, "type", "unknown"))));
      if username != "" then username else "system"
  }

  /** A non-empty `userName` wins, whatever `arn`, `principalId` and `type` say. */
  lemma UserNameFirst(d: Descriptor)
    requires Get(d, "userName", "") != ""
    ensures ExtractUsername(Some(d)) == d["userName"]
  {
  }

  /**
   * Without a usable `userName`, the text after the last `/` of `arn` is used
   * (all of `arn` when it has no `/`), provided it is non-empty.
   */
  lemma ArnSecond(d: Descriptor)
    requires Get(d, "userName", "") == ""
    requires "arn" in d && LastSegment(d["arn"], '/') != ""
    ensures ExtractUsername(Some(d)) == LastSegment(d["arn"], '/')
    ensures '/' !in ExtractUsername(Some(d))
    ensures '/' !in d["arn"] ==> ExtractUsername(Some(d)) == d["arn"]
  {
  }

  /** An `arn` that ends in `/` (or is empty) yields nothing and falls through. */
  lemma ArnFallsThrough(d: Descriptor)
    requires "arn" in d && (d["arn"] == "" || d["arn"][|d["arn"]| - 1] == '/')
    ensures SegmentStep(d, "arn", '/') == ""
  {
  }

  /** Third comes the text after the last `:` of `principalId`, if non-empty. */
  lemma PrincipalThird(d: Descriptor)
    requires Get(d, "userName", "") == ""
    requires "arn" !in d || LastSegment(d["arn"], '/') == ""
    requires "principalId" in d && LastSegment(d["principalId"], ':') != ""
    ensures ExtractUsername(Some(d)) == LastSegment(d["principalId"], ':')
    ensures ':' !in ExtractUsername(Some(d))
  {
  }

  /**
   * When the first three steps yield nothing, a non-empty descriptor gives
   * its `type`, or "unknown" without one; an empty `type` gives "system".
   */
  lemma TypeLast(d: Descriptor)
    requires d != map[]
    requires Get(d, "userName", "") == ""
    requires "arn" !in d || LastSegment(d["arn"], '/') == ""
    requires "principalId" !in d || LastSegment(d["principalId"], ':') == ""
    ensures "type" !in d ==> ExtractUsername(Some(d)) == "unknown"
    ensures "type" in d && d["type"] != "" ==> ExtractUsername(Some(d)) == d["type"]
    ensures "type" in d && d["type"] == "" ==> ExtractUsername(Some(d)) == "system"
  {
    assert SegmentStep(d, "arn", '/') == "" && SegmentStep(d, "principalId", ':') == "";
  }

  /**
   * A descriptor without any of the four keys yields "unknown" when it has
   * other keys, and "system" when it is empty.
   */
  lemma NoKnownKeys(d: Descriptor)
    requires "userName" !in d && "arn" !in d && "principalId" !in d && "type" !in d
    ensures ExtractUsername(Some(d)) == if d == map[] then "system" else "unknown"
  {
  }

  /**
   * The result is always one of: "system", `userName`, a segment of `arn`
   * or `principalId`, `type`, or "unknown".
   */
  lemma ExtractUsernameOrigin(identity: Option<Descriptor>)
    ensures var r := ExtractUsername(identity);
      || r == "system"
      || r == "unknown"
      || (identity.Some? && "userName" in identity.value && r == identity.value["userName"])
      || (identity.Some? && "arn" in identity.value && r == LastSegment(identity.value["arn"], '/'))
      || (identity.Some? && "principalId" in identity.value && r == LastSegment(identity.value["principalId"], ':'))
      || (identity.Some? && "type" in identity.value && r == identity.value["type"])
  {
    if identity.Some? && identity.value != map[] {
      var d := identity.value;
      if Get(d, "userName", "") != "" {
      } else if SegmentStep(d, "arn", '/') != "" {
        assert "arn" in d;
      } else if SegmentStep(d, "principalId", ':') != "" {
        assert "principalId" in d;
      }
    }
  }

  /** Worked examples, one per step of the priority order. */
  lemma UserNameExample()
    ensures ExtractUsername(Some(map["userName" := "alice"])) == "alice"
  {
    UserNameFirst(map["userName" := "alice"]);
  }

  lemma ArnExample()
    ensures ExtractUsername(Some(map["arn" := "arn:aws:iam::123:role/deploy"])) == "deploy"
  {
    assert "arn:aws:iam::123:role" + ['/'] + "deploy" == "arn:aws:iam::123:role/deploy";
    LastSegmentAfter("arn:aws:iam::123:role", '/', "deploy");
    ArnSecond(map["arn" := "arn:aws:iam::123:role/deploy"]);
  }

  lemma PrincipalExample()
    ensures ExtractUsername(Some(map["principalId" := "AID:session1"])) == "session1"
  {
    var d := map["principalId" := "AID:session1"];
    assert "AID" + [':'] + "session1" == "AID:session1";
    LastSegmentAfter("AID", ':', "session1");
    PrincipalThird(d);
  }

  lemma TypeExamples()
    ensures ExtractUsername(Some(map["type" := "AssumedRole"])) == "AssumedRole"
    ensures ExtractUsername(Some(map["type" := ""])) == "system"
  {
    assert "type" in map["type" := "AssumedRole"] && "type" in map["type" := ""];
    TypeLast(map["type" := "AssumedRole"]);
    TypeLast(map["type" := ""]);
  }
}
