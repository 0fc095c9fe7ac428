/** Exactly when extractUriPath (src/coapPortTracker.cpp) reads the path that RFC 7252 says a message has. */
module PathAgreement {
  import opened Bytes
  import opened Coap
  import opened CoapWriter
  import opened CoapRoundTrip
  import opened CoapReaders

  /** The reader's header is the decoder's, with delta and length cut to 8 bits. */
  lemma HeaderCut(s: seq<byte>, h: OptionHeader)
    requires s != [] && ReadOptionHeader(s) == Ok(h)
    ensures ReadByteHeader(s) == Some(OptionHeader(h.delta % 0x100, h.length % 0x100, h.used))
  {
    ExtendedCut(s[0] / 0x10, s[1..]);
    var delta := ReadExtended(s[0] / 0x10, s[1..]).value;
    ExtendedCut(s[0] % 0x10, s[1 + delta.used..]);
  }

  lemma ExtendedCut(nibble: nat, s: seq<byte>)
    requires ReadExtended(nibble, s).Ok?
    ensures var r := ReadExtended(nibble, s).value;
      ReadByteExtended(nibble, s) == Some(Extended(r.value % 0x100, r.used))
  {
  }

  ghost predicate NumbersFit(options: seq<Opt>) {
    forall i :: 0 <= i < |options| ==> options[i].number < 0x1_0000
  }

  /** The reader finds all the header bytes it looks for, whatever options it takes them for. */
  ghost predicate StaysInside(s: seq<byte>)
    decreases |s|
  {
    s == [] || s[0] == PAYLOAD_MARKER ||
    (ReadByteHeader(s).Some? &&
     var h := ReadByteHeader(s).value; StaysInside(From(s, h.used + h.length)))
  }

  /** A turn of the reader at an option that it does not take for Uri-Path. */
  lemma OtherOption(s: seq<byte>, last: uint16, h: OptionHeader)
    requires s != [] && s[0] != PAYLOAD_MARKER && ReadByteHeader(s) == Some(h)
    requires (last + h.delta) % 0x1_0000 != URI_PATH
    ensures PathSegments(s, last) == PathSegments(From(s, h.used + h.length), (last + h.delta) % 0x1_0000)
    ensures StaysInside(s) <==> StaysInside(From(s, h.used + h.length))
  {
    hide ReadByteHeader;
  }

  /** A turn of the reader at an option that it takes for Uri-Path. */
  lemma PathOption(s: seq<byte>, last: uint16, h: OptionHeader)
    requires s != [] && s[0] != PAYLOAD_MARKER && ReadByteHeader(s) == Some(h) && last + h.delta == URI_PATH
    requires h.used + h.length <= |s|
    ensures PathSegments(s, last)
         == Collected([s[h.used..h.used + h.length]], PathSegments(s[h.used + h.length..], URI_PATH))
    ensures StaysInside(s) <==> StaysInside(s[h.used + h.length..])
  {
    hide ReadByteHeader, Collected;
  }

  lemma SegmentsStep(s: seq<byte>, last: uint16, h: OptionHeader, rest: seq<seq<byte>>)
    requires s != [] && s[0] != PAYLOAD_MARKER
    requires ReadByteHeader(s) == Some(h) && h.used + h.length <= |s| && last + h.delta < 0x1_0000
    requires PathSegments(s[h.used + h.length..], last + h.delta) == Some(rest)
    ensures PathSegments(s, last)
         == Some((if last + h.delta == URI_PATH then [s[h.used..h.used + h.length]] else []) + rest)
  {
    hide ReadByteHeader, PathSegments, StaysInside;
    if last + h.delta == URI_PATH {
      PathOption(s, last, h);
    } else {
      OtherOption(s, last, h);
      assert From(s, h.used + h.length) == s[h.used + h.length..];
      assert [] + rest == rest;
    }
  }

  /** A short option in front: its header is read whole, and the reader goes on behind it. */
  lemma ShortOption(s: seq<byte>, last: uint16, h: OptionHeader, options: seq<Opt>)
    requires s != [] && s[0] != PAYLOAD_MARKER && ReadOptionHeader(s) == Ok(h) && h.used + h.length <= |s|
    requires h.delta <= 0xFF && h.length <= 0xFF && last + h.delta < 0x1_0000
    requires options != [] && options[0] == Opt(last + h.delta, s[h.used..h.used + h.length])
    requires PathSegments(s[h.used + h.length..], last + h.delta) == Some(ValuesOf(options[1..], URI_PATH))
    ensures PathSegments(s, last) == Some(ValuesOf(options, URI_PATH))
  {
    hide ReadOptionHeader, ReadByteHeader, PathSegments;
    HeaderCut(s, h);
    SegmentsStep(s, last, h, ValuesOf(options[1..], URI_PATH));
  }

  /**
   * On well-formed options that step by at most 255 and hold at most 255 bytes the
   * path reader finds the Uri-Path values.
   */
  lemma {:induction false} SegmentsAgree(s: seq<byte>, last: uint16)
    requires DecodeContent(s, last).Ok?
    requires var options := DecodeContent(s, last).value.options;
      ShortSteps(options, last, 0xFF) && NumbersFit(options)
    ensures PathSegments(s, last) == Some(ValuesOf(DecodeContent(s, last).value.options, URI_PATH))
    decreases |s|
  {
    if s != [] && s[0] != PAYLOAD_MARKER {
      var options := DecodeContent(s, last).value.options;
      hide DecodeContent, ReadOptionHeader, ReadByteHeader, PathSegments, ValuesOf;
      var h := FirstOption(s, last);
      assert options[0].number < 0x1_0000;
      SegmentsAgree(s[h.used + h.length..], last + h.delta);
      ShortOption(s, last, h, options);
    }
  }

  lemma PathAgrees(buffer: seq<byte>)
    requires Decode(buffer).Ok?
    requires var options := Decode(buffer).value.content.options;
      ShortSteps(options, 0, 0xFF) && NumbersFit(options)
    ensures UriPath(buffer) == Some(Join(ValuesOf(Decode(buffer).value.content.options, URI_PATH)))
  {
    SegmentsAgree(Body(buffer), 0);
  }

  lemma {:induction false} ValuesOfConcat(a: seq<Opt>, b: seq<Opt>, number: nat)
    ensures ValuesOf(a + b, number) == ValuesOf(a, number) + ValuesOf(b, number)
  {
    if a == [] {
      assert a + b == b;
    } else {
      assert (a + b)[1..] == a[1..] + b;
      ValuesOfConcat(a[1..], b, number);
    }
  }

  lemma {:induction false} ValuesOfRepeated(number: nat, values: seq<seq<byte>>, wanted: nat)
    ensures ValuesOf(Repeated(number, values), wanted) == if number == wanted then values else []
  {
    if values != [] {
      assert Repeated(number, values)[1..] == Repeated(number, values[1..]);
      ValuesOfRepeated(number, values[1..], wanted);
      assert values == [values[0]] + values[1..];
    }
  }

  lemma OtherNumber(options: seq<Opt>, number: nat)
    requires |options| <= 1 && (options != [] ==> options[0].number != number)
    ensures ValuesOf(options, number) == []
  {
  }

  lemma PathValues(r: Request)
    ensures ValuesOf(Options(r), URI_PATH) == r.segments
  {
    hide UintValue, Repeated, ValuesOf;
    var a, b, c, d := ObserveOption(r), Repeated(URI_PATH, r.segments), FormatOption(r), Repeated(URI_QUERY, r.queries);
    OtherNumber(a, URI_PATH);
    OtherNumber(c, URI_PATH);
    ValuesOfRepeated(URI_PATH, r.segments, URI_PATH);
    ValuesOfRepeated(URI_QUERY, r.queries, URI_PATH);
    ValuesOfConcat(a, b, URI_PATH);
    ValuesOfConcat(a + b, c, URI_PATH);
    ValuesOfConcat(a + b + c, d, URI_PATH);
    assert [] + r.segments + [] + [] == r.segments;
  }

  lemma {:induction false} OrderedSteps(options: seq<Opt>, last: nat, limit: nat)
    requires Ordered(options) && ValuesFit(options, limit)
    requires forall i :: 0 <= i < |options| ==> last <= options[i].number <= limit
    ensures ShortSteps(options, last, limit)
  {
    if options != [] {
      OrderedSteps(options[1..], options[0].number, limit);
    }
  }

  // ----------------------------------------------------- exactly when they agree

  lemma HeaderCost(s: seq<byte>)
    requires s != [] && ReadByteHeader(s).Some?
    ensures var h := ReadByteHeader(s).value; h.delta <= 0xFF && (h.delta > 15 ==> h.used >= 2)
  {
  }

  /** The bytes left and the number reached, weighed so that no step of the reader increases the sum. */
  ghost predicate Bounded(size: nat, number: nat) {
    0xFF * size + 2 * number < 2 * 0x1_0000 + 22
  }

  lemma BoundedNext(size: nat, last: uint16, h: OptionHeader, rest: nat)
    requires Bounded(size, last) && 1 <= h.used <= size && h.delta <= 0xFF && (h.delta > 15 ==> h.used >= 2)
    requires rest <= size - h.used
    ensures Bounded(rest, last + h.delta)
    ensures last + h.delta >= 0x1_0000 ==> rest == 0 && last + h.delta < 0x1_0000 + 11
  {
    assert 0xFF * (size - h.used) == 0xFF * size - 0xFF * h.used;
  }

  /**
   * Past Uri-Path the reader finds no more segments. Its 16-bit option number
   * could wrap round, but a step of more than 15 costs two bytes, so a message of
   * up to 512 bytes is too short for that.
   */
  lemma {:induction false} NoMorePath(s: seq<byte>, last: uint16)
    requires last > URI_PATH && Bounded(|s|, last)
    ensures PathSegments(s, last) == if StaysInside(s) then Some([]) else None
    decreases |s|
  {
    hide ReadByteHeader, PathSegments, StaysInside, Bounded, From;
    if s == [] || s[0] == PAYLOAD_MARKER || ReadByteHeader(s).None? {
      ReaderStops(s, last);
    } else {
      var h := ReadByteHeader(s).value;
      HeaderCost(s);
      var rest := From(s, h.used + h.length);
      RestIsShort(s, h);
      BoundedNext(|s|, last, h, |rest|);
      OtherOption(s, last, h);
      if last + h.delta < 0x1_0000 {
        NoMorePath(rest, last + h.delta);
      } else {
        ReaderStops(rest, (last + h.delta) % 0x1_0000);
      }
    }
  }

  lemma RestIsShort(s: seq<byte>, h: OptionHeader)
    requires h.used <= |s|
    ensures |From(s, h.used + h.length)| <= |s| - h.used
  {
  }

  lemma ReaderStops(s: seq<byte>, last: uint16)
    requires s == [] || s[0] == PAYLOAD_MARKER || ReadByteHeader(s).None?
    ensures PathSegments(s, last) == if StaysInside(s) then Some([]) else None
    ensures s == [] ==> StaysInside(s)
  {
  }

  lemma {:induction false} NoPathAfter(s: seq<byte>, last: nat)
    requires DecodeContent(s, last).Ok? && last > URI_PATH
    ensures ValuesOf(DecodeContent(s, last).value.options, URI_PATH) == []
    decreases |s|
  {
    if s != [] && s[0] != PAYLOAD_MARKER {
      var h := FirstOption(s, last);
      hide DecodeContent, ReadOptionHeader;
      NoPathAfter(s[h.used + h.length..], last + h.delta);
    }
  }

  /** The options in front of Uri-Path are no longer than RFC 7252 lets them be. */
  ghost predicate EarlyShort(options: seq<Opt>) {
    forall i :: 0 <= i < |options| && options[i].number < URI_PATH ==> |options[i].value| <= 0xFF
  }

  /**
   * The number that the reader takes the first option behind Uri-Path for: the step
   * to it loses all but its lowest 8 bits.
   */
  function NumberBehind(options: seq<Opt>, last: nat): Option<nat> {
    if options == [] then None
    else if options[0].number > URI_PATH then Some(last + (options[0].number - last) % 0x100)
    else NumberBehind(options[1..], options[0].number)
  }

  /** The reader, too, takes the first option behind Uri-Path for one that is behind it. */
  predicate LeavesPath(behind: Option<nat>) {
    behind.None? || behind.value > URI_PATH
  }

  ghost predicate AllShort(values: seq<seq<byte>>) {
    forall i :: 0 <= i < |values| ==> |values[i]| <= 0xFF
  }

  /**
   * The two lists part at k: the read segment is a proper prefix of the true one,
   * and what is read next does not continue it.
   */
  ghost predicate PartAt(read: seq<seq<byte>>, path: seq<seq<byte>>, k: nat) {
    && k < |read| && k < |path| && read[..k] == path[..k]
    && |read[k]| < |path[k]| && read[k] == path[k][..|read[k]|]
    && (k + 1 < |read| ==> path[k][|read[k]|] != 0x2F)
  }

  ghost predicate Part(read: seq<seq<byte>>, path: seq<seq<byte>>) {
    exists k: nat :: PartAt(read, path, k)
  }

  lemma SameHead(head: seq<byte>, read: seq<seq<byte>>, path: seq<seq<byte>>)
    requires Part(read, path)
    ensures Part([head] + read, [head] + path)
  {
    var k: nat :| PartAt(read, path, k);
    assert ([head] + read)[..k + 1] == [head] + read[..k];
    assert ([head] + path)[..k + 1] == [head] + path[..k];
    assert PartAt([head] + read, [head] + path, k + 1);
  }

  /** What a list of segments puts in front of the next one. */
  function Head(segments: seq<seq<byte>>): seq<byte> {
    if segments == [] then [] else Join(segments) + [0x2F]
  }

  /** A joined list is its first k segments, the next segment, and either nothing or a slash and more. */
  lemma {:induction false} JoinSplit(segments: seq<seq<byte>>, k: nat) returns (rest: seq<byte>)
    requires k < |segments|
    ensures Join(segments) == Head(segments[..k]) + segments[k] + rest
    ensures if k + 1 == |segments| then rest == [] else rest != [] && rest[0] == 0x2F
  {
    var init, last := segments[..|segments| - 1], segments[|segments| - 1];
    if k + 1 == |segments| {
      assert segments[..k] == init;
      rest := [];
    } else {
      assert init[..k] == segments[..k];
      var shorter := JoinSplit(init, k);
      rest := shorter + ([0x2F] + last);
      assert Join(init) + [0x2F] + last == Head(segments[..k]) + segments[k] + rest;
    }
  }

  /** Lists that part in the middle of a segment join to different paths. */
  lemma PartedPathsDiffer(read: seq<seq<byte>>, path: seq<seq<byte>>)
    requires Part(read, path)
    ensures Join(read) != Join(path)
  {
    var k: nat :| PartAt(read, path, k);
    var a := JoinSplit(read, k);
    var b := JoinSplit(path, k);
    var head := Head(read[..k]);
    hide Join, Head;
    var at := |head| + |read[k]|;
    assert Join(path)[at] == path[k][|read[k]|];
    if k + 1 < |read| {
      assert Join(read)[at] == 0x2F;
    } else {
      assert |Join(read)| == at;
    }
  }

  /** The bytes of any message that reaches the reader from the network or the serial line. */
  const MESSAGE_MAX: nat := 512

  lemma SlashStepsByTwo(s: seq<byte>)
    requires s != [] && s[0] == 0x2F && ReadByteHeader(s).Some?
    ensures ReadByteHeader(s).value.delta == 2
  {
  }

  /** A slash where an option header should be is a step of 2 beyond Uri-Path. */
  lemma SlashEndsPath(s: seq<byte>)
    requires s != [] && s[0] == 0x2F && |s| <= MESSAGE_MAX
    ensures PathSegments(s, URI_PATH) == if StaysInside(s) then Some([]) else None
  {
    hide ReadByteHeader, PathSegments, StaysInside, From;
    if ReadByteHeader(s).None? {
      ReaderStops(s, URI_PATH);
    } else {
      var h := ReadByteHeader(s).value;
      SlashStepsByTwo(s);
      OtherOption(s, URI_PATH, h);
      RestIsShort(s, h);
      NoMorePath(From(s, h.used + h.length), 13);
    }
  }

  /** A long path value is cut, and what the reader takes for the next options does not make up for it. */
  lemma LongValueParts(s: seq<byte>, last: uint16, h: OptionHeader, later: seq<seq<byte>>)
    requires s != [] && s[0] != PAYLOAD_MARKER && |s| <= MESSAGE_MAX && last + h.delta == URI_PATH
    requires ReadByteHeader(s) == Some(OptionHeader(h.delta, h.length % 0x100, h.used))
    requires h.length > 0xFF && h.used + h.length <= |s|
    ensures var r := PathSegments(s, last);
      r.Some? ==> Part(r.value, [s[h.used..h.used + h.length]] + later)
  {
    hide ReadByteHeader, PathSegments, StaysInside, From;
    var m := h.length % 0x100;
    PathOption(s, last, OptionHeader(h.delta, m, h.used));
    var value, rest := s[h.used..h.used + h.length], s[h.used + m..];
    if PathSegments(s, last).Some? {
      var read := PathSegments(s, last).value;
      var more := PathSegments(rest, URI_PATH).value;
      assert s[h.used..h.used + m] == value[..m];
      assert read == [value[..m]] + more;
      if more != [] && value[m] == 0x2F {
        SlashEndsPath(rest);
      }
      assert PartAt(read, [value] + later, 0);
    }
  }

  /** The read list is the true one and more. */
  ghost predicate Extends(read: seq<seq<byte>>, path: seq<seq<byte>>) {
    |path| < |read| && read[..|path|] == path
  }

  lemma ExtendedPathsDiffer(read: seq<seq<byte>>, path: seq<seq<byte>>)
    requires Extends(read, path) && path != []
    ensures Join(read) != Join(path)
  {
    var k := |path| - 1;
    var a := JoinSplit(read, k);
    var b := JoinSplit(path, k);
    hide Join, Head;
    assert read[..|path|][..k] == read[..k] && read[..|path|][k] == read[k];
    assert |Join(read)| > |Join(path)|;
  }

  /**
   * What the reader finds, given the path values that the decoder finds and the
   * number it takes the next option behind them for.
   */
  ghost predicate Finds(s: seq<byte>, last: uint16, path: seq<seq<byte>>, behind: Option<nat>) {
    var r := PathSegments(s, last);
    if !AllShort(path) then r.Some? ==> Part(r.value, path)
    else if LeavesPath(behind) then r == if StaysInside(s) then Some(path) else None
    else (path != [] || last == URI_PATH) && r.Some? ==> Extends(r.value, path)
  }

  lemma ShortPathOptionFinds(s: seq<byte>, last: uint16, h: OptionHeader, later: seq<seq<byte>>, behind: Option<nat>)
    requires s != [] && s[0] != PAYLOAD_MARKER && last + h.delta == URI_PATH && h.length <= 0xFF
    requires ReadByteHeader(s) == Some(h) && h.used + h.length <= |s|
    requires Finds(s[h.used + h.length..], URI_PATH, later, behind)
    ensures Finds(s, last, [s[h.used..h.used + h.length]] + later, behind)
  {
    hide ReadByteHeader, PathSegments, StaysInside, Part, LeavesPath;
    var value, rest := s[h.used..h.used + h.length], s[h.used + h.length..];
    var path := [value] + later;
    PathOption(s, last, h);
    assert path[0] == value && path[1..] == later;
    assert AllShort(path) <==> AllShort(later) by {
      assert forall i :: 0 <= i < |later| ==> path[i + 1] == later[i];
    }
    if PathSegments(rest, URI_PATH).Some? {
      var more := PathSegments(rest, URI_PATH).value;
      if !AllShort(later) {
        SameHead(value, more, later);
      } else if !LeavesPath(behind) {
        assert ([value] + more)[..|path|] == [value] + more[..|later|];
      }
    }
  }

  lemma PathOptionFinds(s: seq<byte>, last: uint16, h: OptionHeader, later: seq<seq<byte>>, behind: Option<nat>)
    requires s != [] && s[0] != PAYLOAD_MARKER && |s| <= MESSAGE_MAX && last + h.delta == URI_PATH
    requires ReadByteHeader(s) == Some(OptionHeader(h.delta, h.length % 0x100, h.used)) && h.used + h.length <= |s|
    requires Finds(s[h.used + h.length..], URI_PATH, later, behind)
    ensures Finds(s, last, [s[h.used..h.used + h.length]] + later, behind)
  {
    hide ReadByteHeader, PathSegments, StaysInside, Part, LeavesPath;
    if h.length > 0xFF {
      LongValueParts(s, last, h, later);
      assert |([s[h.used..h.used + h.length]] + later)[0]| > 0xFF;
    } else {
      hide Finds;
      ShortPathOptionFinds(s, last, h, later, behind);
    }
  }

  lemma EarlyOptionFinds(s: seq<byte>, last: uint16, h: OptionHeader, path: seq<seq<byte>>, behind: Option<nat>)
    requires s != [] && s[0] != PAYLOAD_MARKER && last + h.delta < URI_PATH && h.length <= 0xFF
    requires ReadByteHeader(s) == Some(h) && h.used + h.length <= |s|
    requires Finds(s[h.used + h.length..], last + h.delta, path, behind)
    ensures Finds(s, last, path, behind)
  {
    hide ReadByteHeader, PathSegments, StaysInside, Part, LeavesPath, AllShort, Extends;
    OtherOption(s, last, h);
    assert From(s, h.used + h.length) == s[h.used + h.length..];
  }

  lemma LateOptionFinds(s: seq<byte>, last: uint16, h: OptionHeader)
    requires s != [] && s[0] != PAYLOAD_MARKER && |s| <= MESSAGE_MAX && last <= URI_PATH < last + h.delta
    requires ReadByteHeader(s) == Some(OptionHeader(h.delta % 0x100, h.length % 0x100, h.used))
    requires h.used + h.length <= |s|
    ensures Finds(s, last, [], Some(last + h.delta % 0x100))
  {
    hide ReadByteHeader, PathSegments, StaysInside, Part, From;
    var read, number := OptionHeader(h.delta % 0x100, h.length % 0x100, h.used), last + h.delta % 0x100;
    if number > URI_PATH {
      OtherOption(s, last, read);
      RestIsShort(s, read);
      NoMorePath(From(s, read.used + read.length), number);
    } else if number == URI_PATH {
      PathOption(s, last, read);
    }
  }

  /** One option in front of options whose path values are known. */
  lemma OptionFinds(s: seq<byte>, last: uint16, h: OptionHeader, options: seq<Opt>)
    requires s != [] && s[0] != PAYLOAD_MARKER && |s| <= MESSAGE_MAX && last <= URI_PATH
    requires ReadOptionHeader(s) == Ok(h) && h.used + h.length <= |s|
    requires options != [] && options[0] == Opt(last + h.delta, s[h.used..h.used + h.length])
    requires last + h.delta < URI_PATH ==> h.length <= 0xFF
    requires var later := ValuesOf(options[1..], URI_PATH);
      if last + h.delta > URI_PATH then later == []
      else Finds(s[h.used + h.length..], last + h.delta, later, NumberBehind(options[1..], last + h.delta))
    ensures Finds(s, last, ValuesOf(options, URI_PATH), NumberBehind(options, last))
  {
    hide ReadOptionHeader, ReadByteHeader, Finds;
    HeaderCut(s, h);
    var later := ValuesOf(options[1..], URI_PATH);
    var behind := NumberBehind(options, last);
    if last + h.delta == URI_PATH {
      PathOptionFinds(s, last, h, later, behind);
    } else {
      assert [] + later == later;
      if last + h.delta > URI_PATH {
        LateOptionFinds(s, last, h);
      } else {
        EarlyOptionFinds(s, last, h, later, behind);
      }
    }
  }

  lemma EarlyShortSplits(options: seq<Opt>)
    requires options != [] && EarlyShort(options)
    ensures options[0].number < URI_PATH ==> |options[0].value| <= 0xFF
    ensures EarlyShort(options[1..])
  {
  }

  lemma {:induction false} ReaderFinds(s: seq<byte>, last: uint16)
    requires |s| <= MESSAGE_MAX && last <= URI_PATH
    requires DecodeContent(s, last).Ok? && EarlyShort(DecodeContent(s, last).value.options)
    ensures var options := DecodeContent(s, last).value.options;
      Finds(s, last, ValuesOf(options, URI_PATH), NumberBehind(options, last))
    decreases |s|
  {
    hide DecodeContent, ReadOptionHeader, Finds, ValuesOf, NumberBehind, EarlyShort;
    if s == [] || s[0] == PAYLOAD_MARKER {
      NothingFound(s, last);
    } else {
      var options := DecodeContent(s, last).value.options;
      var h := FirstOption(s, last);
      var rest, number := s[h.used + h.length..], last + h.delta;
      assert options[0].number == number && |options[0].value| == h.length;
      EarlyShortSplits(options);
      if number > URI_PATH {
        NoPathAfter(rest, number);
      } else {
        ReaderFinds(rest, number);
      }
      OptionFinds(s, last, h, options);
    }
  }

  lemma NothingFound(s: seq<byte>, last: uint16)
    requires s == [] || s[0] == PAYLOAD_MARKER
    requires DecodeContent(s, last).Ok?
    ensures var options := DecodeContent(s, last).value.options;
      Finds(s, last, ValuesOf(options, URI_PATH), NumberBehind(options, last))
  {
    assert DecodeContent(s, last).value.options == [];
    NoHeader(s);
    ReaderStops(s, last);
    hide DecodeContent, PathSegments, StaysInside, Part;
  }

  lemma NoHeader(s: seq<byte>)
    requires s == [] || s[0] == PAYLOAD_MARKER
    ensures StaysInside(s)
  {
  }

  /**
   * Exactly when the path reader agrees with the decoder on a well-formed message
   * of at most 512 bytes of options and payload: no Uri-Path value may be longer
   * than 255 bytes, the step to the first option behind the path must not be a
   * multiple of 256, and no longer value there may lead the reader past the end of
   * the buffer. A message without a path is covered if its first option behind
   * Uri-Path is taken for such a one.
   */
  lemma PathAgreesExactly(buffer: seq<byte>)
    requires Decode(buffer).Ok? && |Body(buffer)| <= MESSAGE_MAX && EarlyShort(Decode(buffer).value.content.options)
    requires var options := Decode(buffer).value.content.options;
      ValuesOf(options, URI_PATH) != [] || LeavesPath(NumberBehind(options, 0))
    ensures var options := Decode(buffer).value.content.options;
      var path := ValuesOf(options, URI_PATH);
      && (UriPath(buffer) == Some(Join(path))
          <==> AllShort(path) && LeavesPath(NumberBehind(options, 0)) && StaysInside(Body(buffer)))
  {
    var options := Decode(buffer).value.content.options;
    var path := ValuesOf(options, URI_PATH);
    ReaderFinds(Body(buffer), 0);
    UriPathIs(buffer);
    hide Decode, DecodeContent, ValuesOf, PathSegments, StaysInside, Part, AllShort, UriPath, Join, LeavesPath, Extends;
    var r := PathSegments(Body(buffer), 0);
    if r.Some? {
      if !AllShort(path) {
        PartedPathsDiffer(r.value, path);
      } else if !LeavesPath(NumberBehind(options, 0)) {
        ExtendedPathsDiffer(r.value, path);
      }
    }
  }

  lemma UriPathIs(buffer: seq<byte>)
    requires buffer != [] && LooksLikeCoap(buffer)
    ensures UriPath(buffer) == match PathSegments(Body(buffer), 0)
                               case None => None
                               case Some(segments) => Some(Join(segments))
  {
    hide PathSegments;
    assert From(buffer, 4 + GetTokenLength(buffer)) == Body(buffer);
  }

  /**
   * The path of a built message is its segments joined by "/", for segments and
   * queries within the 255-byte limit of RFC 7252 section 5.10 and a legal token.
   */
  lemma PathRoundTrip(r: Request)
    requires |r.token| <= TOKEN_MAX_LEN && TextFits(r, 0xFF)
    ensures UriPath(MessageBytes(r)) == Some(Join(r.segments))
  {
    MessageRoundTrip(r);
    OptionsOrdered(r);
    TextIsValues(r, 0xFF);
    OrderedSteps(Options(r), 0, 0xFF);
    PathAgrees(MessageBytes(r));
    PathValues(r);
  }

  lemma {:induction false} ValuesInside(options: seq<Opt>, i: nat)
    requires i < |options|
    ensures |options[i].value| <= |EncodeOptions(options)|
  {
    hide HeaderBytes;
    if i < |options| - 1 {
      ValuesInside(options[..|options| - 1], i);
    }
  }

  lemma SmallMessageFits(r: Request)
    requires |r.token| <= TOKEN_MAX_LEN && |MessageBytes(r)| <= MESSAGE_MAX
    ensures TextFits(r, 0xFFFF) && |Body(MessageBytes(r))| <= MESSAGE_MAX
  {
    HeaderFields(r);
    TextIsValues(r, 0xFFFF);
    hide EncodeOptions, Options, MessageBytes;
    forall i | 0 <= i < |Options(r)| ensures |Options(r)[i].value| <= 0xFFFF {
      ValuesInside(Options(r), i);
    }
  }

  lemma {:induction false} SmallNumbersLeave(options: seq<Opt>, last: nat)
    requires Ordered(options) && last <= URI_PATH
    requires forall i :: 0 <= i < |options| ==> last <= options[i].number <= 0xFF
    ensures LeavesPath(NumberBehind(options, last))
  {
    if options != [] && options[0].number <= URI_PATH {
      SmallNumbersLeave(options[1..], options[0].number);
    }
  }

  lemma BuiltIsPlain(r: Request)
    ensures EarlyShort(Options(r)) && LeavesPath(NumberBehind(Options(r), 0))
  {
    if r.observe.Some? {
      UintValueShort(r.observe.value);
    }
    hide UintValue;
    OptionsOrdered(r);
    SmallNumbersLeave(Options(r), 0);
  }

  /**
   * Exactly when the path of a built message of at most 512 bytes is read back:
   * every segment has at most 255 bytes, and no longer query leads the reader past
   * the end.
   */
  lemma PathRoundTripExactly(r: Request)
    requires |r.token| <= TOKEN_MAX_LEN && |MessageBytes(r)| <= MESSAGE_MAX
    ensures LooksLikeCoap(MessageBytes(r))
    ensures UriPath(MessageBytes(r)) == Some(Join(r.segments))
        <==> AllShort(r.segments) && StaysInside(Body(MessageBytes(r)))
  {
    SmallMessageFits(r);
    GoodRequestReadBack(r);
    BuiltIsPlain(r);
    PathValues(r);
    hide MessageBytes, Options, EarlyShort, LeavesPath, AllShort, StaysInside, UriPath, Join, DecodeContent;
    PathAgreesExactly(MessageBytes(r));
  }

  /** A step of 256 to 267 loses its top bit: the value of option 267 is read as a path. */
  lemma WideStepMisread(buffer: seq<byte>)
    requires buffer == [0x40, 0x01, 0, 1] + [0xD1, 254, 0x61]
    ensures Decode(buffer).Ok? && Decode(buffer).value.content.options == [Opt(267, [0x61])]
    ensures UriPath(buffer) == Some([0x61])
  {
    assert GetTokenLength(buffer) == 0 && Body(buffer) == [0xD1, 254, 0x61];
    UriPathIs(buffer);
    hide DecodeContent, PathSegments, UriPath;
    WideStep(Body(buffer));
    JoinOne([0x61]);
  }

  lemma WideStep(s: seq<byte>)
    requires s == [0xD1, 254, 0x61]
    ensures DecodeContent(s, 0) == Ok(Content([Opt(267, [0x61])], []))
    ensures PathSegments(s, 0) == Some([[0x61]])
  {
    var h := OptionHeader(267, 1, 2);
    assert ReadOptionHeader(s) == Ok(h);
    HeaderCut(s, h);
    hide ReadOptionHeader, ReadByteHeader;
    ContentStep(s, 0, h);
    PathOption(s, 0, OptionHeader(11, 1, 2));
    assert s[2..3] == [0x61] && s[3..] == [];
    ReaderStops([], 11);
    EmptyContent(267);
    hide DecodeContent, PathSegments;
    assert [Opt(267, [0x61])] + [] == [Opt(267, [0x61])];
    assert [[0x61]] + [] == [[0x61]];
  }

  lemma EmptyContent(last: nat)
    ensures DecodeContent([], last) == Ok(Content([], []))
  {
  }

  /** One byte more and the reader's uint8_t length wraps to zero: this one-segment path is read as empty. */
  lemma LongSegmentMisread(r: Request)
    requires |r.token| <= TOKEN_MAX_LEN && r.observe == None && |r.segments| == 1
    requires |r.segments[0]| == 0x100 && r.segments[0][0] == PAYLOAD_MARKER
    ensures UriPath(MessageBytes(r)) == Some([]) && Join(r.segments) != []
  {
    hide *;
    HeaderFields(r);
    FirstSegmentWritten(r);
    WrappedLength(Body(MessageBytes(r)), r.segments[0]);
    UriPathOf(MessageBytes(r), [[]]);
    JoinOne(r.segments[0]);
    JoinOne([]);
    assert r.segments == [r.segments[0]];
  }

  lemma ZeroIsEmptyOption(s: seq<byte>)
    requires s != [] && s[0] == 0
    ensures ReadByteHeader(s) == Some(OptionHeader(0, 0, 1)) && From(s, 1 + 0) == s[1..]
  {
  }

  lemma HalfHeader(s: seq<byte>, last: uint16)
    requires s == [0xD0]
    ensures PathSegments(s, last) == None && !StaysInside(s)
  {
    assert ReadByteHeader(s) == None;
    hide ReadByteHeader;
  }

  /**
   * A run of zero bytes is a run of empty options to the reader; a lone 0xD0 behind
   * it asks for a byte that is not there.
   */
  lemma {:induction false} ZerosLeadOut(s: seq<byte>, last: uint16)
    requires s != [] && last > URI_PATH && s[|s| - 1] == 0xD0
    requires forall i :: 0 <= i < |s| - 1 ==> s[i] == 0
    ensures PathSegments(s, last) == None && !StaysInside(s)
    decreases |s|
  {
    hide ReadByteHeader, PathSegments, StaysInside, From;
    if |s| == 1 {
      HalfHeader(s, last);
    } else {
      ZeroIsEmptyOption(s);
      ZerosLeadOut(s[1..], last);
      OtherOption(s, last, OptionHeader(0, 0, 1));
    }
  }

  /** A query of 256 bytes that the reader takes for no bytes, 255 empty options and half a header. */
  ghost predicate LeadsOut(query: seq<byte>) {
    |query| == 0x100 && query[255] == 0xD0 && forall i :: 0 <= i < 255 ==> query[i] == 0
  }

  lemma LongQueryHeader(body: seq<byte>)
    requires |body| >= 3 && body[0] == 0xDD && body[1] == 2 && body[2] == 243
    ensures ReadByteHeader(body) == Some(OptionHeader(15, 0, 3)) && From(body, 3 + 0) == body[3..]
  {
    assert body[1..][0] == 2 && body[2..][0] == 243;
  }

  lemma LongQueryWrapped(body: seq<byte>, query: seq<byte>)
    requires LeadsOut(query) && |body| == 3 + |query| && body[3..] == query
    requires body[0] == 0xDD && body[1] == 2 && body[2] == 243
    ensures PathSegments(body, 0) == None && !StaysInside(body)
  {
    hide ReadByteHeader, PathSegments, StaysInside, From;
    LongQueryHeader(body);
    ZerosLeadOut(query, 15);
    OtherOption(body, 0, OptionHeader(15, 0, 3));
  }

  /** The reader can be led out of its buffer: by this GET without a path and with one long query. */
  lemma LongQueryLeadsOut(r: Request)
    requires |r.token| <= TOKEN_MAX_LEN && r.meth == GET && r.observe == None && r.segments == []
    requires r.contentFormat == FORMAT_NONE && |r.queries| == 1 && LeadsOut(r.queries[0])
    ensures |MessageBytes(r)| <= MESSAGE_MAX && Decode(MessageBytes(r)) == Ok(Meaning(r))
    ensures UriPath(MessageBytes(r)) == None
  {
    var query := r.queries[0];
    assert TextFits(r, 0xFFFF) && |r.token| <= 8 && |query| == 0x100 && 4 + TOKEN_MAX_LEN + 3 + 0x100 <= MESSAGE_MAX;
    hide *;
    OneQueryWritten(r);
    LongQueryWrapped(Body(MessageBytes(r)), query);
    UriPathIs(MessageBytes(r));
    GoodRequestReadBack(r);
  }

  lemma OneQueryWritten(r: Request)
    requires |r.token| <= TOKEN_MAX_LEN && r.meth == GET && r.observe == None && r.segments == []
    requires r.contentFormat == FORMAT_NONE && |r.queries| == 1 && |r.queries[0]| == 0x100
    ensures MessageBytes(r) != [] && LooksLikeCoap(MessageBytes(r))
    ensures var body := Body(MessageBytes(r));
      && |body| == 3 + |r.queries[0]| && body[3..] == r.queries[0]
      && body[0] == 0xDD && body[1] == 2 && body[2] == 243
    ensures |MessageBytes(r)| <= 4 + TOKEN_MAX_LEN + 3 + 0x100
  {
    var query := r.queries[0];
    assert |r.token| <= 8;
    hide EncodeOptions, MessageBytes, GetMid, GetCoapType, LooksLikeCoap, OptionBytes;
    HeaderFields(r);
    assert Options(r) == [Opt(URI_QUERY, query)];
    EncodeOptionsOne(Opt(URI_QUERY, query));
    LongQueryBytes(query);
    assert PayloadPart(r) == [];
    SmallTokenIsCoap(r);
    hide *;
    assert [0xDD, 2, 243] + query + [] == [0xDD, 2, 243] + query;
  }

  lemma LongQueryBytes(v: seq<byte>)
    requires |v| == 0x100
    ensures OptionBytes(15, v) == [0xDD, 2, 243] + v
  {
    assert Extension(15) == [2] && Extension(0x100) == [243];
    assert Nibble(15) == 13 && Nibble(0x100) == 13;
  }

  lemma UriPathOf(data: seq<byte>, segments: seq<seq<byte>>)
    requires |data| >= 4 && LooksLikeCoap(data) && PathSegments(Body(data), 0) == Some(segments)
    ensures UriPath(data) == Some(Join(segments))
  {
    hide PathSegments;
  }

  lemma JoinOne(segment: seq<byte>)
    ensures Join([segment]) == segment
  {
  }

  lemma FirstSegmentWritten(r: Request)
    requires |r.token| <= TOKEN_MAX_LEN && r.observe == None && |r.segments| == 1 && |r.segments[0]| == 0x100
    ensures LooksLikeCoap(MessageBytes(r)) && [0xBD, 243] + r.segments[0] <= Body(MessageBytes(r))
  {
    var v := r.segments[0];
    HeaderFields(r);
    assert Options(r)[..1] == [Opt(URI_PATH, v)];
    hide MessageBytes, EncodeOptions, Options, OptionBytes, PayloadPart, GetMid, GetCoapType;
    var rest := EncodeOptionsPrefix(Options(r), 1);
    EncodeOptionsOne(Opt(URI_PATH, v));
    LongSegmentBytes(v);
  }

  lemma LongSegmentBytes(v: seq<byte>)
    requires |v| == 0x100
    ensures OptionBytes(11, v) == [0xBD, 243] + v
  {
    assert Extension(11) == [] && Extension(0x100) == [243];
    assert Nibble(11) == 11 && Nibble(0x100) == 13;
  }

  lemma EncodeOptionsOne(o: Opt)
    requires o.number < 0x1_0000
    ensures EncodeOptions([o]) == OptionBytes(o.number, o.value)
  {
    hide OptionBytes;
    assert [o][..0] == [];
    assert [] + OptionBytes(o.number, o.value) == OptionBytes(o.number, o.value);
  }

  lemma WrappedLength(body: seq<byte>, v: seq<byte>)
    requires [0xBD, 243] + v <= body
    requires v != [] && v[0] == PAYLOAD_MARKER
    ensures PathSegments(body, 0) == Some([[]])
  {
    assert body[0] == 0xBD && body[1] == 243 && body[2] == PAYLOAD_MARKER;
    assert ReadByteHeader(body) == Some(OptionHeader(11, 0, 2));
    assert body[2..2] == [] && [body[2..2]] + [] == [[]];
    assert PathSegments(body[2..], 11) == Some([]);
    SegmentsStep(body, 0, OptionHeader(11, 0, 2), []);
  }

  /** A nibble of 15, which is reserved, is read as a step or a length of 15. */
  lemma ReservedNibbleRead(s: seq<byte>)
    requires |s| == 18 && s[0] == 0x0F && s[16] == 0xB1
    ensures DecodeContent(s, 0) == Err(ReservedNibble)
    ensures PathSegments(s, 0) == Some([[s[17]]])
  {
    assert ReadByteHeader(s) == Some(OptionHeader(0, 15, 1));
    assert From(s, 16) == s[16..];
    OtherOption(s, 0, OptionHeader(0, 15, 1));
    LastSegment(s[16..]);
  }

  lemma LastSegment(s: seq<byte>)
    requires |s| == 2 && s[0] == 0xB1
    ensures PathSegments(s, 0) == Some([[s[1]]])
  {
    var h := OptionHeader(11, 1, 1);
    assert ReadByteHeader(s) == Some(h);
    hide ReadByteHeader;
    PathOption(s, 0, h);
    assert s[1..2] == [s[1]] && s[2..] == [];
    ReaderStops([], 11);
    hide PathSegments;
    assert [[s[1]]] + [] == [[s[1]]];
  }

  /**
   * The reader looks at no more of the header than the low nibble of the first byte:
   * fewer than 4 bytes have no path.
   */
  lemma PathOfAnyBytes(data: seq<byte>)
    ensures |data| < 4 ==> UriPath(data) == Some([])
    ensures |data| >= 4 && data[0] % 0x10 + 4 >= |data| ==> UriPath(data) == Some([])
    ensures |data| >= 4 && data[0] % 0x10 + 4 < |data| ==>
      UriPath(data) == match PathSegments(data[data[0] % 0x10 + 4..], 0)
                       case None => None
                       case Some(segments) => Some(Join(segments))
  {
    hide PathSegments, StaysInside, Join;
    ReaderStops([], 0);
    JoinNone();
    if |data| >= 4 {
      var at := 4 + GetTokenLength(data);
      assert GetTokenLength(data) == data[0] % 0x10;
      assert From(data, at) == if at < |data| then data[at..] else [];
    }
  }

  lemma JoinNone()
    ensures Join([]) == []
  {
  }
}
