/**
 * The text form of a route, "{type},{name},{number}:{stop0}|{stop1}|...|{stopN}", as produced by
 * `Route.toString`/`Route.encode` and read back by `Route.decode`. Everything here is a value:
 * the route class (module Routes) is proved to agree with these functions.
 */
module RouteFormat {
  import opened Wrappers
  import opened Exceptions
  import opened Strings
  import opened Stops
  import opened Vehicles

  /** What the text form of a route determines: its variant, name, number and stops. */
  datatype RouteData = RouteData(kind: Kind, name: string, number: Int32, stops: seq<Stop>)

  // ---------------------------------------------------------------------------
  // Encoding
  // ---------------------------------------------------------------------------

  /** The stop names joined by '|', or nothing at all when there are no stops. */
  function StopSegment(names: seq<string>): string {
    if names == [] then "" else Join(names, '|')
  }

  /** The encoding of a route: type tag, name and number separated by ',', then ':' and the stops. */
  function EncodeRoute(d: RouteData): (r: string)
    ensures d.kind.Tag() + "," <= r
  {
    d.kind.Tag() + "," + d.name + "," + IntToString(d.number) + ":" + StopSegment(Names(d.stops))
  }

  /**
   * The encoding ends with ':' when there are no stops, and otherwise with the name of the last
   * stop (so a '|' trails it only when that name is empty or itself ends with '|').
   */
  lemma EncodeRouteEnd(d: RouteData)
    ensures d.stops == [] ==> EndsWith(EncodeRoute(d), ':')
    ensures d.stops != [] ==>
      var e, last := EncodeRoute(d), d.stops[|d.stops| - 1].name;
      |last| <= |e| && e[|e| - |last|..] == last
  {
    var names := Names(d.stops);
    if names != [] {
      JoinEndsWithLast(names, '|');
      var header := d.kind.Tag() + "," + d.name + "," + IntToString(d.number) + ":";
      var last := names[|names| - 1];
      var e := EncodeRoute(d);
      assert e == header + Join(names, '|');
      assert e[|e| - |last|..] == Join(names, '|')[|Join(names, '|')| - |last|..];
    }
  }

  /**
   * When the last of several stop names is empty or ends with '|', the encoding ends with '|', and
   * decode rejects it even against the route's own stops.
   */
  lemma EncodeTrailingBar(d: RouteData)
    requires |d.stops| >= 2
    requires d.stops[|d.stops| - 1].name == [] || EndsWith(d.stops[|d.stops| - 1].name, '|')
    ensures EndsWith(EncodeRoute(d), '|')
    ensures DecodeRoute(Some(EncodeRoute(d)), Some(d.stops)) == Err(TransportFormat)
  {
    var names := Names(d.stops);
    assert names[|names| - 1] == d.stops[|d.stops| - 1].name;
    JoinEndsWithSeparator(names, '|');
    var header := d.kind.Tag() + "," + d.name + "," + IntToString(d.number) + ":";
    var e, segment := EncodeRoute(d), Join(names, '|');
    assert e == header + segment;
    assert e[|e| - 1] == segment[|segment| - 1];
  }

  /** A single stop with an empty name encodes exactly as a route without stops. */
  lemma EncodeSingleEmptyName(d: RouteData)
    requires |d.stops| == 1 && d.stops[0].name == []
    ensures EncodeRoute(d) == EncodeRoute(d.(stops := []))
  {
    assert Names(d.stops) == [[]];
  }

  /** Between n stop names that hold no '|' there are exactly n - 1 separators. */
  lemma StopSegmentSeparators(names: seq<string>)
    requires forall k :: 0 <= k < |names| ==> '|' !in names[k]
    ensures multiset(StopSegment(names))['|'] == if names == [] then 0 else |names| - 1
  {
    if names != [] {
      JoinSeparatorCount(names, '|');
    }
  }

  // ---------------------------------------------------------------------------
  // Decoding, step by step as Route.decode does it
  // ---------------------------------------------------------------------------

  /** The number of occurrences of `c`, computed as the length lost when every `c` is removed. */
  function DelimiterCount(s: string, c: char): (n: nat)
    ensures n == multiset(s)[c]
  {
    RemoveAllCounts(s, c);
    |s| - |RemoveAll(s, c)|
  }

  /** countStaticDelimiters: the whole string holds exactly two ',' and exactly one ':'. */
  predicate HasStaticDelimiters(s: string)
    ensures HasStaticDelimiters(s) <==> multiset(s)[','] == 2 && multiset(s)[':'] == 1
  {
    DelimiterCount(s, ',') == 2 && DelimiterCount(s, ':') == 1
  }

  /** `split(",", 3)` on a string with exactly two commas: the type, the name and the rest. */
  function RouteInfo(s: string): (info: seq<string>)
    requires HasStaticDelimiters(s)
    ensures |info| == 3 && s == info[0] + "," + info[1] + "," + info[2]
    ensures ',' !in info[0] && ',' !in info[1] && ',' !in info[2]
  {
    var info := SplitLimit(s, ',', 3);
    JoinOfThree(info, ',');
    info
  }

  lemma JoinOfThree(parts: seq<string>, d: char)
    requires |parts| == 3
    ensures Join(parts, d) == parts[0] + [d] + parts[1] + [d] + parts[2]
  {
    assert parts[1..][1..] == [parts[2]];
    assert Join(parts[1..], d) == parts[1] + [d] + parts[2];
  }

  /** stringToInt: the trimmed text as a Java `int`. */
  function StringToInt(s: string): (r: Option<Int32>)
    ensures r.Some? <==> IsDecimal(Trim(s)) && -0x8000_0000 <= ParseInteger(Trim(s)).value < 0x8000_0000
    ensures r.Some? ==> r.value == ParseInteger(Trim(s)).value
  {
    ParseInt32(Trim(s))
  }

  /** The text of any `int`, with blanks around it, reads back as that `int`. */
  lemma StringToIntOfIntToString(n: Int32, lead: string, trail: string)
    requires IsBlank(lead) && IsBlank(trail)
    ensures StringToInt(lead + IntToString(n) + trail) == Some(n)
  {
    TrimPadded(lead, IntToString(n), trail);
    ParseInt32ToString(n);
  }

  /** newRouteInstance: the case-sensitive type tag selects the route variant. */
  function KindOfTag(tag: string): (r: Option<Kind>)
    ensures r.Some? ==> r.value.Tag() == tag
    ensures r.None? ==> tag != "bus" && tag != "ferry" && tag != "train"
  {
    if tag == "bus" then Some(BusKind)
    else if tag == "ferry" then Some(FerryKind)
    else if tag == "train" then Some(TrainKind)
    else None
  }

  /** Every variant's tag selects that variant. */
  lemma KindOfTagOfTag(k: Kind)
    ensures KindOfTag(k.Tag()) == Some(k)
  {
  }

  /** checkStops: the '|'-separated tokens after the ':' of the rest, if anything follows it. */
  function StopTokens(rest: string): (tokens: seq<string>)
    ensures forall k :: 0 <= k < |tokens| ==> '|' !in tokens[k]
  {
    var parts := Split(rest, ':');
    if |parts| > 1 then PiecesAvoid(parts[1], '|'); Split(parts[1], '|') else []
  }

  /** The index of the first stop named `name`, scanning from the front. */
  function FindByName(existing: seq<Stop>, name: string): (r: Option<nat>)
    ensures r.Some? ==> r.value < |existing| && existing[r.value].name == name
    ensures r.Some? ==> forall k :: 0 <= k < r.value ==> existing[k].name != name
    ensures r.None? ==> forall k :: 0 <= k < |existing| ==> existing[k].name != name
  {
    if existing == [] then None
    else if existing[0].name == name then Some(0)
    else
      match FindByName(existing[1..], name)
      case Some(i) => Some(i + 1)
      case None => None
  }

  /**
   * compareAndAddStops: each token, in order, resolves to the first existing stop with exactly that
   * name. A token that names no stop fails the decode, unless there are no existing stops at all,
   * in which case every token is skipped.
   */
  function ResolveStops(tokens: seq<string>, existing: seq<Stop>): (r: Result<seq<Stop>, Error>)
    ensures r.Err? ==> r.error == TransportFormat
    ensures r.Err? <==>
      existing != [] && exists k :: 0 <= k < |tokens| && FindByName(existing, tokens[k]).None?
    ensures r.Ok? && existing == [] ==> r.value == []
    ensures r.Ok? && existing != [] ==> |r.value| == |tokens|
    ensures r.Ok? && existing != [] ==>
      forall k :: 0 <= k < |tokens| ==>
        FindByName(existing, tokens[k]).Some? &&
        r.value[k] == existing[FindByName(existing, tokens[k]).value]
    decreases |tokens|
  {
    if tokens == [] then Ok([])
    else
      var init, last := tokens[..|tokens| - 1], tokens[|tokens| - 1];
      assert forall k :: 0 <= k < |init| ==> init[k] == tokens[k];
      match ResolveStops(init, existing)
      case Err(e) => Err(e)
      case Ok(found) =>
        match FindByName(existing, last)
        case Some(i) => Ok(found + [existing[i]])
        case None => if existing == [] then Ok(found) else Err(TransportFormat)
  }
  /** Resolving one more token extends the resolved prefix by that token's stop, if it has one. */
  lemma ResolveStopsStep(tokens: seq<string>, i: nat, existing: seq<Stop>)
    requires i < |tokens| && ResolveStops(tokens[..i], existing).Ok?
    ensures FindByName(existing, tokens[i]).Some? ==>
      ResolveStops(tokens[..i + 1], existing) ==
        Ok(ResolveStops(tokens[..i], existing).value + [existing[FindByName(existing, tokens[i]).value]])
    ensures FindByName(existing, tokens[i]).None? && existing == [] ==>
      ResolveStops(tokens[..i + 1], existing) == ResolveStops(tokens[..i], existing)
  {
    assert tokens[..i + 1][..i] == tokens[..i];
  }


  /** decode, once the string is known to hold two commas: number, type, then stops. */
  function DecodeFields(info: seq<string>, existing: seq<Stop>): (r: Result<RouteData, Error>)
    requires |info| == 3
    ensures r.Err? ==> r.error == TransportFormat || r.error == IndexOutOfBounds
    ensures r.Ok? ==> '\n' !in r.value.name && '\r' !in r.value.name
    ensures r.Ok? ==> forall st :: st in r.value.stops ==> st in existing
  {
    var numberParts := Split(info[2], ':');
    if |numberParts| == 0 then Err(IndexOutOfBounds)
    else
      match StringToInt(numberParts[0])
      case None => Err(TransportFormat)
      case Some(number) =>
        match KindOfTag(info[0])
        case None => Err(TransportFormat)
        case Some(kind) =>
          match ResolveStops(StopTokens(info[2]), existing)
          case Err(e) => Err(e)
          case Ok(stops) =>
            assert forall k :: 0 <= k < |stops| ==> stops[k] in existing;
            Ok(RouteData(kind, StripLineBreaks(info[1]), number, stops))
  }

  /**
   * Route.decode: the route a string describes, resolved against the existing stops (`None` stands
   * for a null argument), or the exception decode throws.
   */
  function DecodeRoute(s: Option<string>, existing: Option<seq<Stop>>): (r: Result<RouteData, Error>)
    ensures s.None? || existing.None? ==> r == Err(TransportFormat)
    ensures s.Some? && EndsWith(s.value, '|') ==> r == Err(TransportFormat)
    ensures s.Some? && (multiset(s.value)[','] != 2 || multiset(s.value)[':'] != 1) ==>
      r == Err(TransportFormat)
    ensures r.Err? ==> r.error == TransportFormat || r.error == IndexOutOfBounds
    ensures r.Ok? ==> '\n' !in r.value.name && '\r' !in r.value.name
    ensures r.Ok? ==> existing.Some? && forall st :: st in r.value.stops ==> st in existing.value
  {
    if s.None? || existing.None? || EndsWith(s.value, '|') then Err(TransportFormat)
    else if !HasStaticDelimiters(s.value) then Err(TransportFormat)
    else DecodeFields(RouteInfo(s.value), existing.value)
  }

  // ---------------------------------------------------------------------------
  // What decode does with the strings it is given
  // ---------------------------------------------------------------------------

  /** Splitting the rest of the string at its only ':' (Java drops the empty pieces at the end). */
  lemma SplitNumberPart(number: string, rest: string)
    requires ':' !in number && ':' !in rest
    ensures Split(number + ":" + rest, ':') ==
      if rest != [] then [number, rest] else if number != [] then [number] else []
  {
    var t := number + ":" + rest;
    PiecesOfCons(number, ':', rest);
    PiecesOfFree(rest, ':');
    assert Pieces(t, ':') == [number, rest];
    assert ':' in t by { assert t[|number|] == ':'; }
    assert Split(t, ':') == DropTrailingEmpty([number, rest]);
    if rest == [] {
      assert [number, rest][..1] == [number];
      if number == [] {
        assert [number][..0] == [];
      }
    }
  }

  /**
   * A string "{tag},{name},{tail}" whose only commas are the two separators and which holds one ':'
   * passes the checks on the whole string and is cut into exactly those three fields.
   */
  lemma DecodeLayout(tag: string, name: string, tail: string, existing: seq<Stop>)
    requires ',' !in tag && ',' !in name && ',' !in tail
    requires multiset(tag)[':'] + multiset(name)[':'] + multiset(tail)[':'] == 1
    requires !EndsWith(tail, '|')
    ensures DecodeRoute(Some(tag + "," + name + "," + tail), Some(existing))
      == DecodeFields([tag, name, tail], existing)
  {
    var s := tag + "," + name + "," + tail;
    LayoutChecks(tag, name, tail);
    LayoutFields(tag, name, tail);
  }

  lemma LayoutChecks(tag: string, name: string, tail: string)
    requires ',' !in tag && ',' !in name && ',' !in tail
    requires multiset(tag)[':'] + multiset(name)[':'] + multiset(tail)[':'] == 1
    requires !EndsWith(tail, '|')
    ensures var s := tag + "," + name + "," + tail;
      !EndsWith(s, '|') && HasStaticDelimiters(s)
  {
    var s := tag + "," + name + "," + tail;
    assert multiset(s) == multiset(tag) + multiset(",") + multiset(name) + multiset(",") + multiset(tail);
    assert multiset(",")[','] == 1 && multiset(",")[':'] == 0;
    if tail != [] {
      assert s[|s| - 1] == tail[|tail| - 1];
    }
  }

  lemma LayoutFields(tag: string, name: string, tail: string)
    requires ',' !in tag && ',' !in name && ',' !in tail
    ensures var s := tag + "," + name + "," + tail;
      multiset(s)[','] == 2 && SplitLimit(s, ',', 3) == [tag, name, tail]
  {
    var s := tag + "," + name + "," + tail;
    assert s == tag + [','] + (name + [','] + tail);
    PiecesOfCons(tag, ',', name + [','] + tail);
    PiecesOfCons(name, ',', tail);
    PiecesOfFree(tail, ',');
    assert Pieces(s, ',') == [tag, name, tail];
  }

  /** "{tag},{name},{number}:{rest}" without stray separators reaches the field-by-field decode. */
  lemma DecodeNumbered(tag: string, name: string, number: string, rest: string, existing: seq<Stop>)
    requires ',' !in tag && ',' !in name && ',' !in number && ',' !in rest
    requires ':' !in tag && ':' !in name && ':' !in number && ':' !in rest
    requires !EndsWith(rest, '|')
    ensures DecodeRoute(Some(tag + "," + name + "," + number + ":" + rest), Some(existing))
      == DecodeFields([tag, name, number + ":" + rest], existing)
    ensures Split(number + ":" + rest, ':') ==
      if rest != [] then [number, rest] else if number != [] then [number] else []
  {
    var tail := number + ":" + rest;
    assert tag + "," + name + "," + number + ":" + rest == tag + "," + name + "," + tail;
    assert multiset(tail) == multiset(number) + multiset(":") + multiset(rest);
    assert multiset(":")[':'] == 1 && multiset(":")[','] == 0;
    assert ',' !in tail;
    if rest != [] {
      assert tail[|tail| - 1] == rest[|rest| - 1];
    }
    DecodeLayout(tag, name, tail, existing);
    SplitNumberPart(number, rest);
  }

  /**
   * A well-formed string "{tag},{name},{number}:{rest}" with a known tag and a number that parses
   * decodes to a route with that variant, the sanitised name and that number, whose stops are the
   * resolution of the '|'-separated tokens of rest (none when rest is empty).
   */
  lemma DecodeWellFormed(tag: string, name: string, number: string, rest: string, existing: seq<Stop>)
    requires ',' !in tag && ',' !in name && ',' !in number && ',' !in rest
    requires ':' !in tag && ':' !in name && ':' !in number && ':' !in rest
    requires !EndsWith(rest, '|')
    requires StringToInt(number).Some? && KindOfTag(tag).Some?
    ensures var resolved := ResolveStops(if rest == [] then [] else Split(rest, '|'), existing);
      resolved.Err? ==>
        DecodeRoute(Some(tag + "," + name + "," + number + ":" + rest), Some(existing)) == Err(TransportFormat)
    ensures var resolved := ResolveStops(if rest == [] then [] else Split(rest, '|'), existing);
      resolved.Ok? ==>
        DecodeRoute(Some(tag + "," + name + "," + number + ":" + rest), Some(existing)) ==
          Ok(RouteData(KindOfTag(tag).value, StripLineBreaks(name), StringToInt(number).value, resolved.value))
  {
    DecodeNumbered(tag, name, number, rest, existing);
    NumberedFieldsAccepted(tag, name, number, rest, existing);
  }

  /** The fields of "{tag},{name},{number}:{rest}" decode to the resolution of rest's tokens. */
  lemma NumberedFieldsAccepted(tag: string, name: string, number: string, rest: string, existing: seq<Stop>)
    requires ':' !in number && ':' !in rest
    requires StringToInt(number).Some? && KindOfTag(tag).Some?
    ensures var resolved := ResolveStops(if rest == [] then [] else Split(rest, '|'), existing);
      resolved.Err? ==> DecodeFields([tag, name, number + ":" + rest], existing) == Err(TransportFormat)
    ensures var resolved := ResolveStops(if rest == [] then [] else Split(rest, '|'), existing);
      resolved.Ok? ==>
        DecodeFields([tag, name, number + ":" + rest], existing) ==
          Ok(RouteData(KindOfTag(tag).value, StripLineBreaks(name), StringToInt(number).value, resolved.value))
  {
    NumberPartFields(number, rest);
    DecodeFieldsAccepted([tag, name, number + ":" + rest], existing, StringToInt(number).value, KindOfTag(tag).value);
  }

  /**
   * With at most one ':' and not ":" alone, the part after the second comma splits into at least
   * one piece, so `split(":")[0]` exists.
   */
  lemma SplitNonEmpty(tail: string)
    requires multiset(tail)[':'] <= 1 && tail != ":"
    ensures |Split(tail, ':')| > 0
  {
    if ':' in tail {
      var i :| 0 <= i < |tail| && tail[i] == ':';
      var number, rest := tail[..i], tail[i + 1..];
      assert tail == number + ":" + rest;
      assert multiset(tail) == multiset(number) + multiset(":") + multiset(rest);
      assert ':' !in number && ':' !in rest;
      SplitNumberPart(number, rest);
    }
  }

  /**
   * A number that is not a Java `int` fails the decode with a format error, wherever the one ':'
   * stands and whatever the tag and the stops.
   */
  lemma DecodeRejectsBadNumber(tag: string, name: string, tail: string, existing: seq<Stop>)
    requires ',' !in tag && ',' !in name && ',' !in tail
    requires multiset(tag)[':'] + multiset(name)[':'] + multiset(tail)[':'] == 1
    requires !EndsWith(tail, '|') && tail != ":"
    requires |Split(tail, ':')| > 0 ==> StringToInt(Split(tail, ':')[0]).None?
    ensures DecodeRoute(Some(tag + "," + name + "," + tail), Some(existing)) == Err(TransportFormat)
  {
    DecodeLayout(tag, name, tail, existing);
    SplitNonEmpty(tail);
  }

  /**
   * A tag other than "bus", "ferry" and "train" fails the decode with a format error once the
   * number has parsed, wherever the one ':' stands.
   */
  lemma DecodeRejectsUnknownTag(tag: string, name: string, tail: string, existing: seq<Stop>)
    requires ',' !in tag && ',' !in name && ',' !in tail
    requires multiset(tag)[':'] + multiset(name)[':'] + multiset(tail)[':'] == 1
    requires !EndsWith(tail, '|') && tail != ":"
    requires |Split(tail, ':')| > 0 ==> StringToInt(Split(tail, ':')[0]).Some?
    requires tag != "bus" && tag != "ferry" && tag != "train"
    ensures DecodeRoute(Some(tag + "," + name + "," + tail), Some(existing)) == Err(TransportFormat)
  {
    DecodeLayout(tag, name, tail, existing);
    SplitNonEmpty(tail);
  }

  /** The number and the stop tokens that decode takes from "{number}:{rest}". */
  lemma NumberPartFields(number: string, rest: string)
    requires ':' !in number && ':' !in rest
    requires StringToInt(number).Some?
    ensures |Split(number + ":" + rest, ':')| > 0 && Split(number + ":" + rest, ':')[0] == number
    ensures StopTokens(number + ":" + rest) == if rest == [] then [] else Split(rest, '|')
  {
    SplitNumberPart(number, rest);
    assert number != [] by {
      assert Trim([]) == [];
    }
  }

  /** The field-by-field decode when the number parses and the tag is known. */
  lemma DecodeFieldsAccepted(info: seq<string>, existing: seq<Stop>, number: Int32, kind: Kind)
    requires |info| == 3 && |Split(info[2], ':')| > 0
    requires StringToInt(Split(info[2], ':')[0]) == Some(number) && KindOfTag(info[0]) == Some(kind)
    ensures ResolveStops(StopTokens(info[2]), existing).Err? ==>
      DecodeFields(info, existing) == Err(TransportFormat)
    ensures ResolveStops(StopTokens(info[2]), existing).Ok? ==>
      DecodeFields(info, existing) ==
        Ok(RouteData(kind, StripLineBreaks(info[1]), number, ResolveStops(StopTokens(info[2]), existing).value))
  {
  }

  /**
   * "{tag},{name},:" escapes from decode as an array index error, not as a format error, and does
   * so before the tag is looked at.
   */
  lemma DecodeIndexOutOfBounds(tag: string, name: string, existing: seq<Stop>)
    requires ',' !in tag && ',' !in name && ':' !in tag && ':' !in name
    ensures DecodeRoute(Some(tag + "," + name + ",:"), Some(existing)) == Err(IndexOutOfBounds)
  {
    var colon: string := ":";
    assert multiset(colon)[':'] == 1 && ',' !in colon;
    assert tag + "," + name + ",:" == tag + "," + name + "," + colon;
    DecodeLayout(tag, name, colon, existing);
    SplitOfSeparator(':');
    DecodeFieldsWithoutNumber([tag, name, colon], existing);
  }

  /** With nothing before or after the ':' the number part splits to no pieces at all. */
  lemma DecodeFieldsWithoutNumber(info: seq<string>, existing: seq<Stop>)
    requires |info| == 3 && Split(info[2], ':') == []
    ensures DecodeFields(info, existing) == Err(IndexOutOfBounds)
  {
  }

  /** Nothing after the ':' gives a route with no stops, whatever the existing stops are. */
  lemma DecodeWithoutStops(tag: string, name: string, number: string, existing: seq<Stop>)
    requires ',' !in tag && ',' !in name && ',' !in number
    requires ':' !in tag && ':' !in name && ':' !in number
    requires StringToInt(number).Some? && KindOfTag(tag).Some?
    ensures DecodeRoute(Some(tag + "," + name + "," + number + ":"), Some(existing))
      == Ok(RouteData(KindOfTag(tag).value, StripLineBreaks(name), StringToInt(number).value, []))
  {
    DecodeWellFormed(tag, name, number, [], existing);
    assert tag + "," + name + "," + number + ":" + [] == tag + "," + name + "," + number + ":";
  }

  /**
   * The colon count is taken over the whole string, so a ':' inside the name is accepted; the part
   * after the second comma then has no ':' and the route has no stops.
   */
  lemma DecodeColonInName(tag: string, name: string, number: string, existing: seq<Stop>)
    requires ',' !in tag && ',' !in name && ',' !in number
    requires ':' !in tag && multiset(name)[':'] == 1 && ':' !in number
    requires !EndsWith(number, '|')
    requires StringToInt(number).Some? && KindOfTag(tag).Some?
    ensures DecodeRoute(Some(tag + "," + name + "," + number), Some(existing))
      == Ok(RouteData(KindOfTag(tag).value, StripLineBreaks(name), StringToInt(number).value, []))
  {
    assert multiset(tag)[':'] == 0 && multiset(number)[':'] == 0;
    DecodeLayout(tag, name, number, existing);
    ColonFreeFields(tag, name, number, existing);
  }

  /** Fields whose third part has no ':' decode to a route with no stops. */
  lemma ColonFreeFields(tag: string, name: string, number: string, existing: seq<Stop>)
    requires ':' !in number && StringToInt(number).Some? && KindOfTag(tag).Some?
    ensures DecodeFields([tag, name, number], existing)
      == Ok(RouteData(KindOfTag(tag).value, StripLineBreaks(name), StringToInt(number).value, []))
  {
    var info := [tag, name, number];
    assert info[2] == number && Split(number, ':') == [number];
    assert StopTokens(number) == [];
    assert ResolveStops([], existing) == Ok([]);
    DecodeFieldsAccepted(info, existing, StringToInt(number).value, KindOfTag(tag).value);
  }

  /** With no existing stops, every stop token is skipped and the decode succeeds with no stops. */
  lemma DecodeWithEmptyRegistry(tag: string, name: string, number: string, rest: string)
    requires ',' !in tag && ',' !in name && ',' !in number && ',' !in rest
    requires ':' !in tag && ':' !in name && ':' !in number && ':' !in rest
    requires !EndsWith(rest, '|')
    requires StringToInt(number).Some? && KindOfTag(tag).Some?
    ensures DecodeRoute(Some(tag + "," + name + "," + number + ":" + rest), Some([]))
      == Ok(RouteData(KindOfTag(tag).value, StripLineBreaks(name), StringToInt(number).value, []))
  {
    var tokens := if rest == [] then [] else Split(rest, '|');
    assert ResolveStops(tokens, []) == Ok([]);
    DecodeWellFormed(tag, name, number, rest, []);
  }

  /**
   * A route naming a stop that the (non-empty) registry does not hold is a format error, whatever
   * the other stop names are.
   */
  lemma DecodeUnknownStop(tag: string, name: string, number: string, names: seq<string>, existing: seq<Stop>, k: nat)
    requires ',' !in tag && ',' !in name && ',' !in number
    requires ':' !in tag && ':' !in name && ':' !in number
    requires StringToInt(number).Some? && KindOfTag(tag).Some?
    requires forall i :: 0 <= i < |names| ==> EncodableStopName(names[i])
    requires k < |names| && existing != [] && FindByName(existing, names[k]).None?
    ensures DecodeRoute(Some(tag + "," + name + "," + number + ":" + Join(names, '|')), Some(existing))
      == Err(TransportFormat)
  {
    var rest := Join(names, '|');
    SegmentText(names);
    DecodeWellFormed(tag, name, number, rest, existing);
    assert Split(rest, '|') == names;
    assert ResolveStops(names, existing).Err?;
  }

  // ---------------------------------------------------------------------------
  // Round trip
  // ---------------------------------------------------------------------------

  /** A route name the format can carry: no separator of the format and no line break. */
  predicate EncodableName(name: string) {
    ',' !in name && ':' !in name && '\n' !in name && '\r' !in name
  }

  /** A stop name the format can carry: not empty, and no separator of the format. */
  predicate EncodableStopName(name: string) {
    name != [] && ',' !in name && ':' !in name && '|' !in name
  }

  /** A route whose name and stop names the format can carry. */
  predicate Encodable(d: RouteData) {
    EncodableName(d.name) && forall k :: 0 <= k < |d.stops| ==> EncodableStopName(d.stops[k].name)
  }

  /** Stops with the same name are the same stop. */
  predicate NamesIdentifyStops(stops: seq<Stop>) {
    forall i, j :: 0 <= i < |stops| && 0 <= j < |stops| && stops[i].name == stops[j].name ==> stops[i] == stops[j]
  }

  /**
   * The stop segment of an encoding holds no ',' or ':', does not end with '|', is empty only
   * without stops, and splits back into the stop names.
   */
  lemma EncodedStops(stops: seq<Stop>)
    requires forall k :: 0 <= k < |stops| ==> EncodableStopName(stops[k].name)
    ensures ',' !in StopSegment(Names(stops)) && ':' !in StopSegment(Names(stops))
    ensures !EndsWith(StopSegment(Names(stops)), '|')
    ensures StopSegment(Names(stops)) == [] <==> stops == []
    ensures stops != [] ==> Split(StopSegment(Names(stops)), '|') == Names(stops)
  {
    var names := Names(stops);
    if names != [] {
      NamesEncodable(stops);
      SegmentText(names);
    }
  }

  lemma NamesEncodable(stops: seq<Stop>)
    requires forall k :: 0 <= k < |stops| ==> EncodableStopName(stops[k].name)
    ensures forall k :: 0 <= k < |Names(stops)| ==> EncodableStopName(Names(stops)[k])
  {
  }

  /** The printed number holds no separator of the format and reads back as the number. */
  lemma NumberText(n: Int32)
    ensures var number := IntToString(n);
      ',' !in number && ':' !in number && StringToInt(number) == Some(n)
  {
    var number := IntToString(n);
    assert Trim(number) == number;
    ParseInt32ToString(n);
  }

  /** Stop names joined by '|' hold no other separator, do not end with '|' and split back. */
  lemma SegmentText(names: seq<string>)
    requires names != []
    requires forall k :: 0 <= k < |names| ==> EncodableStopName(names[k])
    ensures var rest := Join(names, '|');
      ',' !in rest && ':' !in rest && rest != [] && !EndsWith(rest, '|') && Split(rest, '|') == names
  {
    JoinAvoids(names, '|', ',');
    JoinAvoids(names, '|', ':');
    JoinLastChar(names, '|');
    SplitOfJoin(names, '|');
  }

  /** Each stop of a list resolves, by name, to a stop of that list with the same name. */
  lemma ResolveOwnNames(stops: seq<Stop>)
    ensures var r := ResolveStops(Names(stops), stops);
      r.Ok? && Names(r.value) == Names(stops) &&
      forall k :: 0 <= k < |stops| ==> r.value[k] == stops[FindByName(stops, stops[k].name).value]
  {
    var names := Names(stops);
    forall k | 0 <= k < |names|
      ensures FindByName(stops, names[k]).Some?
    {
      assert stops[k].name == names[k];
    }
  }

  /**
   * Decoding the encoding of a route against its own stops gives back its type, name, number and
   * stop names, when the names can be carried by the format.
   */
  lemma DecodeEncode(d: RouteData)
    requires Encodable(d)
    ensures var r := DecodeRoute(Some(EncodeRoute(d)), Some(d.stops));
      r.Ok? && r.value.kind == d.kind && r.value.name == d.name && r.value.number == d.number &&
      Names(r.value.stops) == Names(d.stops) &&
      ResolveStops(Names(d.stops), d.stops) == Ok(r.value.stops)
  {
    var tag, number, rest := d.kind.Tag(), IntToString(d.number), StopSegment(Names(d.stops));
    NumberText(d.number);
    EncodedStops(d.stops);
    KindOfTagOfTag(d.kind);
    DecodeWellFormed(tag, d.name, number, rest, d.stops);
    ResolveOwnNames(d.stops);
  }

  /** A list in which a name determines the stop resolves its own names to itself. */
  lemma ResolveOwnNamesIdentity(stops: seq<Stop>)
    requires NamesIdentifyStops(stops)
    ensures ResolveStops(Names(stops), stops) == Ok(stops)
  {
    ResolveOwnNames(stops);
    var result := ResolveStops(Names(stops), stops);
    var r := result.value;
    assert |r| == |stops| by {
      assert |Names(r)| == |Names(stops)|;
    }
    forall k | 0 <= k < |stops|
      ensures r[k] == stops[k]
    {
      var i := FindByName(stops, stops[k].name).value;
      assert stops[i].name == stops[k].name;
    }
    assert r == stops;
    assert result == Ok(r);
  }

  /**
   * When no two different stops of the route share a name, decoding the encoding against the
   * route's own stops gives back exactly the route.
   */
  lemma DecodeEncodeIdentity(d: RouteData)
    requires Encodable(d) && NamesIdentifyStops(d.stops)
    ensures DecodeRoute(Some(EncodeRoute(d)), Some(d.stops)) == Ok(d)
  {
    DecodeEncode(d);
    ResolveOwnNamesIdentity(d.stops);
  }
}
