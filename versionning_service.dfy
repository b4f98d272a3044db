/**
 * The version resolver of `VersionningService::getVersion`: the serialization
 * version a client asks for in its `Accept` header, or the configured default.
 *
 * The header is split on ';'. The first segment that contains the text
 * "version" anywhere decides: its value is the trimmed field between the
 * first and the second '=' of that segment. A deciding segment without any
 * '=' has no such field; PHP then reads a missing array index, which the
 * model reports as `UndefinedIndex`.
 */
module VersionningService {
  import opened Wrappers
  import opened PhpStrings

  datatype VersionError = UndefinedIndex

  const VersionMarker: string := "version"

  /** The first segment that mentions "version", if any. */
  function FirstVersionSegment(segments: seq<string>): (r: Option<string>)
    ensures r.Some? ==> r.value in segments && Contains(r.value, VersionMarker)
  {
    if segments == [] then None
    else if Contains(segments[0], VersionMarker) then Some(segments[0])
    else FirstVersionSegment(segments[1..])
  }

  /** `trim(explode('=', segment)[1])`, or the error of a missing index 1. */
  function SegmentVersion(segment: string): Result<string, VersionError> {
    var fields := Explode('=', segment);
    if |fields| < 2 then Failure(UndefinedIndex) else Success(Trim(fields[1]))
  }

  /**
   * What `getVersion` returns for the `Accept` header `accept` (None when the
   * request has none, which `explode` treats as the empty string).
   */
  function ResolveVersion(accept: Option<string>, defaultVersion: string): Result<string, VersionError> {
    match FirstVersionSegment(Explode(';', accept.GetOr("")))
    case None => Success(defaultVersion)
    case Some(segment) => SegmentVersion(segment)
  }

  /** `getVersion`: the loop over the segments, leaving at the first one that mentions "version". */
  method GetVersion(accept: Option<string>, defaultVersion: string) returns (version: Result<string, VersionError>)
    ensures version == ResolveVersion(accept, defaultVersion)
  {
    version := Success(defaultVersion);
    var segments := Explode(';', accept.GetOr(""));
    var i := 0;
    while i < |segments|
      invariant 0 <= i <= |segments|
      invariant FirstVersionSegment(segments[i..]) == FirstVersionSegment(segments)
    {
      if Contains(segments[i], VersionMarker) {
        var fields := Explode('=', segments[i]);
        if |fields| < 2 {
          version := Failure(UndefinedIndex);
        } else {
          version := Success(Trim(fields[1]));
        }
        break;
      }
      assert segments[i..][1..] == segments[i + 1..];
      i := i + 1;
    }
  }

  /** No segment mentions "version" exactly when there is no deciding segment. */
  lemma {:induction false} FirstVersionSegmentNone(segments: seq<string>)
    ensures FirstVersionSegment(segments).None? <==>
            forall k :: 0 <= k < |segments| ==> !Contains(segments[k], VersionMarker)
  {
    if segments != [] {
      FirstVersionSegmentNone(segments[1..]);
      assert forall k :: 1 <= k < |segments| ==> segments[k] == segments[1..][k - 1];
    }
  }

  /** The segment at `i` decides when it is the first to mention "version". */
  lemma {:induction false} FirstVersionSegmentAt(segments: seq<string>, i: nat)
    requires i < |segments| && Contains(segments[i], VersionMarker)
    requires forall k :: 0 <= k < i ==> !Contains(segments[k], VersionMarker)
    ensures FirstVersionSegment(segments) == Some(segments[i])
  {
    if i > 0 {
      assert !Contains(segments[0], VersionMarker);
      FirstVersionSegmentAt(segments[1..], i - 1);
    }
  }

  /** Segments after a deciding one are never looked at. */
  lemma {:induction false} FirstVersionSegmentAppend(a: seq<string>, b: seq<string>)
    requires FirstVersionSegment(a).Some?
    ensures FirstVersionSegment(a + b) == FirstVersionSegment(a)
  {
    if !Contains(a[0], VersionMarker) {
      assert (a + b)[1..] == a[1..] + b;
      FirstVersionSegmentAppend(a[1..], b);
    }
  }

  /** Without a segment that mentions "version", the default is returned. */
  lemma DefaultWithoutVersionSegment(accept: Option<string>, defaultVersion: string)
    requires forall k :: 0 <= k < |Explode(';', accept.GetOr(""))| ==>
               !Contains(Explode(';', accept.GetOr(""))[k], VersionMarker)
    ensures ResolveVersion(accept, defaultVersion) == Success(defaultVersion)
  {
    FirstVersionSegmentNone(Explode(';', accept.GetOr("")));
  }

  /** An absent or empty header gives the default. */
  lemma DefaultForAbsentHeader(defaultVersion: string)
    ensures ResolveVersion(None, defaultVersion) == Success(defaultVersion)
    ensures ResolveVersion(Some(""), defaultVersion) == Success(defaultVersion)
  {
    assert Explode(';', "") == [""];
  }

  /** The first segment to mention "version" decides the result. */
  lemma FirstMatchDecides(accept: string, defaultVersion: string, i: nat)
    requires i < |Explode(';', accept)|
    requires Contains(Explode(';', accept)[i], VersionMarker)
    requires forall k :: 0 <= k < i ==> !Contains(Explode(';', accept)[k], VersionMarker)
    ensures ResolveVersion(Some(accept), defaultVersion) == SegmentVersion(Explode(';', accept)[i])
  {
    FirstVersionSegmentAt(Explode(';', accept), i);
  }

  /** Once `head` holds a segment that mentions "version", whatever follows the next ';' is ignored. */
  lemma LaterSegmentsIgnored(head: string, tail: string, defaultVersion: string)
    requires exists k :: 0 <= k < |Explode(';', head)| && Contains(Explode(';', head)[k], VersionMarker)
    ensures ResolveVersion(Some(head + ";" + tail), defaultVersion) == ResolveVersion(Some(head), defaultVersion)
  {
    FirstVersionSegmentNone(Explode(';', head));
    ExplodeConcat(';', head, tail);
    assert head + ";" + tail == head + [';'] + tail;
    FirstVersionSegmentAppend(Explode(';', head), Explode(';', tail));
  }

  /**
   * A segment's version fails exactly when the segment has no '='; a version
   * it yields is trimmed, free of '=' and made of the segment's characters.
   */
  lemma SegmentVersionOutcome(segment: string)
    ensures SegmentVersion(segment).Failure? <==> '=' !in segment
    ensures SegmentVersion(segment).Success? ==>
            var v := SegmentVersion(segment).value;
            '=' !in v && (forall c :: c in v ==> c in segment) &&
            (v == [] || (!IsTrimChar(v[0]) && !IsTrimChar(v[|v| - 1])))
  {
    ExplodeSingle('=', segment);
    if |Explode('=', segment)| >= 2 {
      ExplodePiecesSepFree('=', segment);
      ExplodePieceChars('=', segment, 1);
    }
  }

  /** The deciding segment never contains ';'. */
  lemma FirstVersionSegmentSepFree(accept: string)
    ensures FirstVersionSegment(Explode(';', accept)).Some? ==>
            ';' !in FirstVersionSegment(Explode(';', accept)).value
  {
    var segments := Explode(';', accept);
    var first := FirstVersionSegment(segments);
    if first.Some? {
      ExplodePiecesSepFree(';', accept);
      var k :| 0 <= k < |segments| && segments[k] == first.value;
    }
  }

  /**
   * The resolver fails exactly when the deciding segment has no '='; otherwise
   * the version is the default or a trimmed token free of ';' and '='.
   */
  lemma ResolveOutcome(accept: Option<string>, defaultVersion: string)
    ensures ResolveVersion(accept, defaultVersion).Failure? <==>
            (var first := FirstVersionSegment(Explode(';', accept.GetOr("")));
             first.Some? && '=' !in first.value)
    ensures ResolveVersion(accept, defaultVersion).Success? ==>
            var v := ResolveVersion(accept, defaultVersion).value;
            v == defaultVersion ||
            (';' !in v && '=' !in v && (v == [] || (!IsTrimChar(v[0]) && !IsTrimChar(v[|v| - 1]))))
  {
    var first := FirstVersionSegment(Explode(';', accept.GetOr("")));
    if first.Some? {
      FirstVersionSegmentSepFree(accept.GetOr(""));
      SegmentVersionOutcome(first.value);
    }
  }

  // Worked examples. Each literal fact is proved in a lemma of its own, which
  // keeps the unfolding of the recursive string functions on literals small.

  /** Two segments, of which only the second mentions "version": the second decides. */
  lemma SecondSegmentDecides(a: string, b: string)
    requires !Contains(a, VersionMarker) && Contains(b, VersionMarker)
    ensures FirstVersionSegment([a, b]) == Some(b)
  {
    assert [a, b][1..] == [b];
  }

  lemma MediaTypeHasNoVersion()
    ensures ';' !in "application/json" && !Contains("application/json", VersionMarker)
  {
    if Contains("application/json", VersionMarker) {
      ContainsFirstChar("application/json", VersionMarker);
    }
  }

  lemma SplitVersionHeader(m: string)
    ensures m + "; version=2.0" == m + [';'] + " version=2.0"
  {
  }

  lemma SplitVersionSegment()
    ensures " version=2.0" == " version" + ['='] + "2.0"
  {
  }

  lemma VersionSegmentMentionsVersion()
    ensures Contains(" version=2.0", VersionMarker)
  {
    assert OccursAt(" version=2.0", VersionMarker, 1);
  }

  lemma VersionSegmentValue()
    ensures SegmentVersion(" version=2.0") == Success("2.0")
  {
    SplitVersionSegment();
    ExplodeTwo('=', " version", "2.0");
    TrimTrimmed("2.0");
  }

  /** Any media type without ';' or "version", followed by `; version=2.0`, asks for 2.0. */
  lemma VersionParameterAfterMediaType(m: string, defaultVersion: string)
    requires ';' !in m && !Contains(m, VersionMarker)
    ensures ResolveVersion(Some(m + "; version=2.0"), defaultVersion) == Success("2.0")
  {
    SplitVersionHeader(m);
    ExplodeTwo(';', m, " version=2.0");
    VersionSegmentMentionsVersion();
    SecondSegmentDecides(m, " version=2.0");
    VersionSegmentValue();
  }

  lemma JoinVersionHeader()
    ensures "application/json; version=2.0" == "application/json" + "; version=2.0"
  {
  }

  /** `application/json; version=2.0` asks for version 2.0. */
  lemma ExampleVersionParameter(defaultVersion: string)
    ensures ResolveVersion(Some("application/json; version=2.0"), defaultVersion) == Success("2.0")
  {
    MediaTypeHasNoVersion();
    JoinVersionHeader();
    VersionParameterAfterMediaType("application/json", defaultVersion);
  }

  /** `application/json` carries no version: the default applies. */
  lemma ExampleNoParameter(defaultVersion: string)
    ensures ResolveVersion(Some("application/json"), defaultVersion) == Success(defaultVersion)
  {
    MediaTypeHasNoVersion();
    ExplodeNoSep(';', "application/json");
  }

  /** A header of one segment that mentions "version" is decided by that segment. */
  lemma SingleSegmentDecides(segment: string, defaultVersion: string)
    requires ';' !in segment && Contains(segment, VersionMarker)
    ensures ResolveVersion(Some(segment), defaultVersion) == SegmentVersion(segment)
  {
    ExplodeNoSep(';', segment);
  }

  /**
   * The test is a substring test: a segment that mentions "version" anywhere,
   * with one '=' after it, decides, and its version is the trimmed rest.
   */
  lemma MentionAnywhereDecides(pre: string, post: string, v: string, defaultVersion: string)
    requires ';' !in pre && ';' !in post && ';' !in v
    requires '=' !in pre && '=' !in post && '=' !in v
    ensures ResolveVersion(Some(pre + VersionMarker + post + "=" + v), defaultVersion) == Success(Trim(v))
  {
    var name := pre + VersionMarker + post;
    var segment := name + "=" + v;
    assert segment[|pre|..|pre| + |VersionMarker|] == VersionMarker;
    assert OccursAt(segment, VersionMarker, |pre|);
    assert ';' !in VersionMarker && '=' !in VersionMarker;
    SingleSegmentDecides(segment, defaultVersion);
    ExplodeTwo('=', name, v);
  }

  /** With two '=' in a segment, the field between them is the version. */
  lemma SegmentVersionSecondField(name: string, v: string, w: string)
    requires '=' !in name && '=' !in v && '=' !in w
    ensures SegmentVersion(name + ['='] + v + ['='] + w) == Success(Trim(v))
  {
    assert name + ['='] + v + ['='] + w == name + ['='] + (v + ['='] + w);
    ExplodeConcat('=', name, v + ['='] + w);
    ExplodeNoSep('=', name);
    ExplodeTwo('=', v, w);
  }

  /** Only the field between the first and second '=' is taken: `version=1=2` gives 1. */
  lemma SecondEqualsEndsVersion(v: string, w: string, defaultVersion: string)
    requires ';' !in v && ';' !in w && '=' !in v && '=' !in w
    ensures ResolveVersion(Some(VersionMarker + "=" + v + "=" + w), defaultVersion) == Success(Trim(v))
  {
    var segment := VersionMarker + "=" + v + "=" + w;
    assert segment[..|VersionMarker|] == VersionMarker;
    assert OccursAt(segment, VersionMarker, 0);
    assert ';' !in VersionMarker && '=' !in VersionMarker;
    SingleSegmentDecides(segment, defaultVersion);
    SegmentVersionSecondField(VersionMarker, v, w);
  }

  lemma MissingValueFacts()
    ensures "application/json;version" == "application/json" + [';'] + "version"
    ensures Contains("version", VersionMarker)
  {
    assert OccursAt("version", VersionMarker, 0);
  }

  /** A deciding segment without '=' is the error case. */
  lemma ExampleMissingValue(defaultVersion: string)
    ensures ResolveVersion(Some("application/json;version"), defaultVersion) == Failure(UndefinedIndex)
  {
    MissingValueFacts();
    MediaTypeHasNoVersion();
    ExplodeTwo(';', "application/json", "version");
    SecondSegmentDecides("application/json", "version");
    ExplodeNoSep('=', "version");
  }
}
