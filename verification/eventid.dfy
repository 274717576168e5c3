/**
 * The record key `EventId`: `<source>-<seconds>-<hash mod 10000>`. It is only
 * best-effort unique: two events of one source in the same second whose
 * hashes agree modulo 10000 get the same key.
 */
module EventIds {
  import opened Wrappers
  import opened Text

  /** The number of hash buckets in the last component. */
  const Buckets: nat := 10000

  /**
   * The key for an event of `source` stored at `seconds` (whole seconds of
   * the clock) whose stringified form hashes to `hash`. The hash reduction
   * is Python's `%`, which for a positive modulus never goes negative; so
   * does Dafny's.
   */
  function EventIdOf(source: string, seconds: int, hash: int): (id: string)
    ensures |id| > |source| && id[..|source| + 1] == source + "-"
    ensures LastSegment(id, '-') == NatToString(hash % Buckets)
    ensures AllDigits(LastSegment(id, '-'))
    ensures ParseNat(LastSegment(id, '-')) == hash % Buckets < Buckets
  {
    var front := source + "-" + IntToString(seconds);
    KeyTail(front, hash % Buckets);
    KeyHead(source, IntToString(seconds), NatToString(hash % Buckets));
    front + "-" + NatToString(hash % Buckets)
  }

  /** A key begins with its source and `-`. */
  lemma KeyHead(source: string, seconds: string, bucket: string)
    ensures (source + "-" + seconds + "-" + bucket)[..|source| + 1] == source + "-"
  {
    assert source + "-" + seconds + "-" + bucket == (source + "-") + (seconds + "-" + bucket);
  }

  /** A key ends in `-` and the decimal text of its bucket, which reads back as the bucket. */
  lemma KeyTail(front: string, bucket: nat)
    ensures LastSegment(front + "-" + NatToString(bucket), '-') == NatToString(bucket)
    ensures ParseNat(NatToString(bucket)) == bucket
  {
    assert front + "-" + NatToString(bucket) == front + ['-'] + NatToString(bucket);
    LastSegmentAfter(front, '-', NatToString(bucket));
    ParseNatToString(bucket);
  }

  /** The three components of a key. */
  datatype EventIdParts = EventIdParts(source: string, seconds: nat, bucket: nat)

  /** A cut of a string at its last `-`: the text before and the text after. */
  datatype Cut = Cut(before: string, after: string)

  /** Cuts `s` at its last `-`; `None` when there is no `-`. */
  function CutLast(s: string): (c: Option<Cut>)
    ensures c.Some? ==> s == c.value.before + "-" + c.value.after && '-' !in c.value.after
    ensures c.None? <==> '-' !in s
  {
    var after := LastSegment(s, '-');
    if |after| == |s| then None
    else
      var before := s[..|s| - |after| - 1];
      assert s == before + "-" + after;
      Some(Cut(before, after))
  }

  /** Cutting `a-b`, where `b` has no `-`, gives back `a` and `b`. */
  lemma CutLastAfter(a: string, b: string)
    requires '-' !in b
    ensures CutLast(a + "-" + b) == Some(Cut(a, b))
  {
    assert a + "-" + b == a + ['-'] + b;
    LastSegmentAfter(a, '-', b);
    var s := a + "-" + b;
    assert s[..|s| - |b| - 1] == a;
  }

  /** A non-empty string of decimal digits. */
  predicate IsNumeral(s: string) {
    s != "" && AllDigits(s)
  }

  /**
   * Reads a key back, cutting at its last two `-` (the source may itself
   * contain `-`); both numeric components must be non-empty digit strings.
   */
  function DecodeEventId(id: string): (parts: Option<EventIdParts>)
  {
    match CutLast(id)
    case None => None
    case Some(Cut(rest, bucket)) =>
      match CutLast(rest)
      case None => None
      case Some(Cut(source, seconds)) =>
        if IsNumeral(seconds) && IsNumeral(bucket)
        then Some(EventIdParts(source, ParseNat(seconds), ParseNat(bucket)))
        else None
  }

  /**
   * A key made at a non-negative time decodes to its source, its seconds and
   * its hash bucket. (A negative time prints as `-n` and puts one more `-`
   * into the key.)
   */
  lemma DecodeEventIdOf(source: string, seconds: int, hash: int)
    requires seconds >= 0
    ensures DecodeEventId(EventIdOf(source, seconds, hash))
         == Some(EventIdParts(source, seconds, hash % Buckets))
  {
    var secs := NatToString(seconds);
    var bucket := NatToString(hash % Buckets);
    var rest := source + "-" + secs;
    assert EventIdOf(source, seconds, hash) == rest + "-" + bucket;
    CutLastAfter(rest, bucket);
    CutLastAfter(source, secs);
    ParseNatToString(seconds);
    ParseNatToString(hash % Buckets);
  }

  /**
   * Within one source and one second, two keys coincide exactly when the
   * hashes fall into the same bucket: the collision the key scheme allows.
   */
  lemma EventIdCollision(source: string, seconds: int, hash1: int, hash2: int)
    ensures EventIdOf(source, seconds, hash1) == EventIdOf(source, seconds, hash2)
        <==> hash1 % Buckets == hash2 % Buckets
  {
    ParseNatToString(hash1 % Buckets);
    ParseNatToString(hash2 % Buckets);
  }
}
