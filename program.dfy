/** The driver: every ticket file is decoded, its curve is looked up once per name, its DER
    signature is parsed (dropping trailing bytes that keep it from parsing), the keys it
    could have been signed with are recovered, and finally every public key found for more
    than one ticket is reported with the number of tickets behind it. Hashing, DER parsing,
    the named-curve table and signature verification are library code and are parameters. */
module Program {
  import opened Wrappers
  import opened Bytes
  import opened TicketReader
  import opened NpTicket
  import opened Points
  import opened EcdsaFinder

  /** A DER value as far as the driver looks at it. DerNothing is the parser's null: the
      input held no object (the empty signature reads as this) and nothing was thrown. */
  datatype Der = DerSequence(items: seq<Der>) | DerInteger(contents: seq<byte>) | DerOther | DerNothing

  /** The library code the driver calls: the two hash functions, the DER parser (None when
      it throws, Some(DerNothing) when it reads no object), the named-curve table, and
      signature verification by hash name, message and DER signature under a candidate key. */
  datatype Env = Env(
    sha1: seq<byte> -> seq<byte>,
    sha224: seq<byte> -> seq<byte>,
    parse: seq<byte> -> Option<Der>,
    curveFromName: string -> Domain,
    verifier: (Domain, string, seq<byte>, seq<byte>) -> Point -> bool)

  /** The named curve is one recovery can run on. */
  ghost predicate UsableCurve(env: Env, name: string)
  {
    WellFormed(env.curveFromName(name)) && GroupLaws(env.curveFromName(name).add)
  }

  /** Both curves a ticket can name are usable. */
  ghost predicate KnownCurves(env: Env)
  {
    UsableCurve(env, "secp192r1") && UsableCurve(env, "secp224k1")
  }

  /** What aborts the whole run: a ticket that does not decode, a signature the DER parser
      rejects after trimming, a signature that is not a sequence, or sequence elements that
      are not integers. */
  datatype RunError = TicketFailed(e: TicketError) | NotParsed | NotASequence | NotAnInteger

  // ---------------------------------------------------------------------------
  // The curve cache

  /** The curves built so far, by name. The ghost log records every name the curve table
      was asked for, in order. */
  class CurveCache {
    var entries: map<string, Domain>
    ghost var constructed: seq<string>

    ghost predicate Valid(curveFromName: string -> Domain)
      reads this
    {
      && (forall name :: name in entries ==> entries[name] == curveFromName(name))
      && (forall name :: name in entries <==> name in constructed)
      && (forall i, j :: 0 <= i < j < |constructed| ==> constructed[i] != constructed[j])
    }

    constructor (ghost curveFromName: string -> Domain)
      ensures Valid(curveFromName) && entries == map[] && constructed == []
    {
      entries := map[];
      constructed := [];
    }

    /** The curve of the given name: from the cache when it is there, otherwise built and
        added. The table is asked for each name at most once. */
    method Get(name: string, curveFromName: string -> Domain) returns (d: Domain)
      requires Valid(curveFromName)
      modifies this
      ensures Valid(curveFromName)
      ensures d == curveFromName(name)
      ensures entries == old(entries)[name := d]
      ensures constructed == if name in old(entries) then old(constructed) else old(constructed) + [name]
    {
      if name in entries {
        d := entries[name];
      } else {
        d := curveFromName(name);
      }
      if name !in entries {
        entries := entries[name := d];
        constructed := constructed + [name];
      }
    }
  }

  // ---------------------------------------------------------------------------
  // Parsing the signature

  /** s without its last byte; the empty sequence stays empty. */
  function DropLast(s: seq<byte>): seq<byte>
  {
    if |s| == 0 then [] else s[..|s| - 1]
  }

  /** The signature after up to tries attempts to parse it, each failed attempt dropping
      its last byte. */
  function TrimToParse(sig: seq<byte>, parse: seq<byte> -> Option<Der>, tries: nat): seq<byte>
  {
    if tries == 0 || parse(sig).Some? then sig
    else TrimToParse(DropLast(sig), parse, tries - 1)
  }

  /** Trimming only removes trailing bytes, at most one per try; it removes nothing from a
      signature that parses; every shorter prefix it passes over failed to parse; and when
      it stops on one that does not parse either, all tries were spent. */
  lemma {:induction false} TrimToParseSpec(sig: seq<byte>, parse: seq<byte> -> Option<Der>, tries: nat)
    ensures var r := TrimToParse(sig, parse, tries);
            && |r| <= |sig| && r == sig[..|r|]
            && |sig| - |r| <= tries
            && (parse(sig).Some? ==> r == sig)
            && (forall k :: |r| < k <= |sig| ==> parse(sig[..k]).None?)
            && (parse(r).None? ==> |r| == if |sig| >= tries then |sig| - tries else 0)
  {
    if tries > 0 && parse(sig).None? {
      var rest := DropLast(sig);
      TrimToParseSpec(rest, parse, tries - 1);
      var r := TrimToParse(sig, parse, tries);
      assert r == TrimToParse(rest, parse, tries - 1);
      if |sig| > 0 {
        assert rest == sig[..|sig| - 1];
        forall k | |r| < k <= |sig|
          ensures parse(sig[..k]).None?
        {
          if k < |sig| {
            assert sig[..k] == rest[..k];
          } else {
            assert sig[..k] == sig;
          }
        }
      }
    }
  }

  /** Tries the parser up to three times, dropping the last byte of the ticket's signature
      after each failure, and parses what is left. */
  method ParseSignature(ticket: NpTicket, parse: seq<byte> -> Option<Der>) returns (sig: Option<Der>)
    modifies ticket`signature
    ensures ticket.signature == TrimToParse(old(ticket.signature), parse, 3)
    ensures sig == parse(ticket.signature)
  {
    ghost var original := ticket.signature;
    var i := 0;
    while i <= 2
      invariant 0 <= i <= 3
      invariant TrimToParse(original, parse, 3) == TrimToParse(ticket.signature, parse, 3 - i)
    {
      if parse(ticket.signature).Some? {
        break;
      }
      ticket.signature := DropLast(ticket.signature);
      i := i + 1;
    }
    sig := parse(ticket.signature);
  }

  // ---------------------------------------------------------------------------
  // One ticket, all tickets

  /** The keys one ticket contributes: none when its signature parses to no object or to a
      sequence whose length is not two, otherwise the recovered keys under which its (possibly trimmed) signature
      verifies; or the error that aborts the run. */
  function RecordKeys(data: seq<byte>, env: Env): Result<seq<Point>, RunError>
    requires KnownCurves(env)
  {
    match Decode(data, env.sha1, env.sha224)
    case Failure(e) => Failure(TicketFailed(e))
    case Success(t) =>
      DecodedCurveIsKnown(data, env.sha1, env.sha224);
      var signature := TrimToParse(t.signature, env.parse, 3);
      KeysOfSignature(env.curveFromName(t.curveName), t, signature, env.parse(signature), env)
  }

  /** The keys a decoded ticket contributes once its signature has been parsed. */
  function KeysOfSignature(d: Domain, t: TicketFields, signature: seq<byte>, parsed: Option<Der>,
                           env: Env): Result<seq<Point>, RunError>
    requires WellFormed(d)
  {
    match parsed
    case None => Failure(NotParsed)
    case Some(DerNothing) => Success([])
    case Some(DerSequence(items)) =>
      if |items| != 2 then Success([])
      else if !items[0].DerInteger? || !items[1].DerInteger? then Failure(NotAnInteger)
      else
        var r := BigEndian(items[0].contents);
        var s := BigEndian(items[1].contents);
        Success(AcceptedKeys(d, r, s, t.hashedMessage, env.verifier(d, t.hashName, t.message, signature), 4))
    case Some(_) => Failure(NotASequence)
  }

  /** What each ticket yields, in file order. */
  function Outcomes(files: seq<seq<byte>>, env: Env): (r: seq<Result<seq<Point>, RunError>>)
    requires KnownCurves(env)
    ensures |r| == |files|
  {
    seq(|files|, k requires 0 <= k < |files| => RecordKeys(files[k], env))
  }

  /** The keys of a run over the given outcomes: all their keys in order, or the first
      error. */
  function Collect(outcomes: seq<Result<seq<Point>, RunError>>): Result<seq<Point>, RunError>
  {
    if outcomes == [] then Success([])
    else
      match Collect(outcomes[..|outcomes| - 1])
      case Failure(e) => Failure(e)
      case Success(points) =>
        match outcomes[|outcomes| - 1]
        case Failure(e) => Failure(e)
        case Success(keys) => Success(points + keys)
  }

  /** The curve name of a ticket that decodes; None when decoding fails. */
  function CurveNameOf(data: seq<byte>, env: Env): Option<string>
  {
    match Decode(data, env.sha1, env.sha224)
    case Failure(_) => None
    case Success(t) => Some(t.curveName)
  }

  /** The cache entries after one ticket: the named curve added under its name, or no
      change when no curve was asked for. */
  function EntriesAfter(entries: map<string, Domain>, name: Option<string>, curveFromName: string -> Domain)
    : map<string, Domain>
  {
    match name
    case None => entries
    case Some(n) => entries[n := curveFromName(n)]
  }

  /** The lookup log after one ticket: the name appended when it was not cached before. */
  function LogAfter(entries: map<string, Domain>, constructed: seq<string>, name: Option<string>): seq<string>
  {
    match name
    case Some(n) => if n in entries then constructed else constructed + [n]
    case None => constructed
  }

  /** Decodes one ticket and recovers its keys. */
  method ProcessTicket(data: seq<byte>, env: Env, cache: CurveCache) returns (res: Result<seq<Point>, RunError>)
    requires KnownCurves(env) && cache.Valid(env.curveFromName)
    modifies cache
    ensures cache.Valid(env.curveFromName)
    ensures res == RecordKeys(data, env)
    ensures cache.entries == EntriesAfter(old(cache.entries), CurveNameOf(data, env), env.curveFromName)
    ensures cache.constructed == LogAfter(old(cache.entries), old(cache.constructed), CurveNameOf(data, env))
  {
    var decoded := FromBytes(data, env.sha1, env.sha224);
    if decoded.Failure? {
      return Failure(TicketFailed(decoded.error));
    }
    var ticket := decoded.value;
    ghost var t := ticket.Fields();
    RecordKeysOfDecoded(data, env, t);
    var curve := cache.Get(ticket.curveName, env.curveFromName);
    var sig := ParseSignature(ticket, env.parse);
    assert ticket.Fields() == t.(signature := TrimToParse(t.signature, env.parse, 3));
    res := RecoverFromSignature(curve, ticket, sig, env);
  }

  /** The keys of a ticket that decodes, by its fields. */
  lemma RecordKeysOfDecoded(data: seq<byte>, env: Env, t: TicketFields)
    requires KnownCurves(env) && Decode(data, env.sha1, env.sha224) == Success(t)
    ensures UsableCurve(env, t.curveName)
    ensures var signature := TrimToParse(t.signature, env.parse, 3);
            RecordKeys(data, env) == KeysOfSignature(env.curveFromName(t.curveName), t, signature, env.parse(signature), env)
  {
    DecodedCurveIsKnown(data, env.sha1, env.sha224);
  }

  /** The rest of one ticket once its signature has been parsed: the shape checks on the
      DER value, r and s stored into the ticket, and recovery under the ticket's verifier. */
  method RecoverFromSignature(curve: Domain, ticket: NpTicket, sig: Option<Der>, env: Env)
    returns (res: Result<seq<Point>, RunError>)
    requires WellFormed(curve) && GroupLaws(curve.add)
    modifies ticket`r, ticket`s
    ensures res == KeysOfSignature(curve, ticket.Fields(), ticket.signature, sig, env)
    ensures if IntegerPair(sig)
            then ticket.r == BigEndian(sig.value.items[0].contents) && ticket.s == BigEndian(sig.value.items[1].contents)
            else ticket.r == old(ticket.r) && ticket.s == old(ticket.s)
  {
    if sig.None? {
      return Failure(NotParsed);
    }
    if sig.value.DerNothing? {
      return Success([]);
    }
    if !sig.value.DerSequence? {
      return Failure(NotASequence);
    }
    if |sig.value.items| != 2 {
      return Success([]);
    }
    if !sig.value.items[0].DerInteger? || !sig.value.items[1].DerInteger? {
      return Failure(NotAnInteger);
    }
    ticket.r := BigEndian(sig.value.items[0].contents);
    ticket.s := BigEndian(sig.value.items[1].contents);
    var points := RecoverPublicKey(curve, ticket.r, ticket.s, ticket.hashedMessage,
                                   env.verifier(curve, ticket.hashName, ticket.message, ticket.signature));
    res := Success(points);
  }

  /** The parse is a sequence of exactly two integers, the shape r and s are read from. */
  predicate IntegerPair(sig: Option<Der>)
  {
    && sig.Some? && sig.value.DerSequence? && |sig.value.items| == 2
    && sig.value.items[0].DerInteger? && sig.value.items[1].DerInteger?
  }

  /** The keys of all tickets, in file order; the first ticket that aborts ends the run. */
  method FindKeys(files: seq<seq<byte>>, env: Env) returns (res: Result<seq<Point>, RunError>)
    requires KnownCurves(env)
    ensures res == Collect(Outcomes(files, env))
  {
    ghost var outcomes := Outcomes(files, env);
    var cache := new CurveCache(env.curveFromName);
    var validPoints: seq<Point> := [];
    var i := 0;
    while i < |files|
      invariant 0 <= i <= |files|
      invariant cache.Valid(env.curveFromName)
      invariant Collect(outcomes[..i]) == Success(validPoints)
    {
      var keys := ProcessTicket(files[i], env, cache);
      assert keys == outcomes[i];
      assert outcomes[..i + 1][..i] == outcomes[..i];
      if keys.Failure? {
        assert Collect(outcomes[..i + 1]) == Failure(keys.error);
        AbortIsFinal(outcomes, i + 1, |files|);
        assert outcomes[..|files|] == outcomes;
        return Failure(keys.error);
      }
      validPoints := validPoints + keys.value;
      i := i + 1;
    }
    assert outcomes[..|files|] == outcomes;
    res := Success(validPoints);
  }

  /** Once a ticket aborts the run, the run stays aborted with that error. */
  lemma {:induction false} AbortIsFinal(outcomes: seq<Result<seq<Point>, RunError>>, i: nat, j: nat)
    requires i <= j <= |outcomes| && Collect(outcomes[..i]).Failure?
    ensures Collect(outcomes[..j]) == Collect(outcomes[..i])
    decreases j - i
  {
    if i < j {
      AbortIsFinal(outcomes, i, j - 1);
      assert outcomes[..j][..j - 1] == outcomes[..j - 1];
    }
  }

  /** The list of keys only grows: the keys of the first i tickets begin the keys of the
      first j. */
  lemma {:induction false} KeysAppendOnly(outcomes: seq<Result<seq<Point>, RunError>>, i: nat, j: nat)
    requires i <= j <= |outcomes| && Collect(outcomes[..j]).Success?
    ensures Collect(outcomes[..i]).Success?
    ensures var before, after := Collect(outcomes[..i]).value, Collect(outcomes[..j]).value;
            |before| <= |after| && after[..|before|] == before
    decreases j - i
  {
    if i < j {
      assert outcomes[..j][..j - 1] == outcomes[..j - 1];
      KeysAppendOnly(outcomes, i, j - 1);
      var mid := Collect(outcomes[..j - 1]).value;
      assert Collect(outcomes[..j]).value[..|mid|] == mid;
    }
  }

  /** When every ticket yields at most four keys and never the identity, so does the run,
      with at most four keys per ticket. */
  lemma {:induction false} KeysBounded(outcomes: seq<Result<seq<Point>, RunError>>)
    requires forall k :: 0 <= k < |outcomes| && outcomes[k].Success? ==>
               |outcomes[k].value| <= 4 && Infinity !in outcomes[k].value
    requires Collect(outcomes).Success?
    ensures |Collect(outcomes).value| <= 4 * |outcomes|
    ensures Infinity !in Collect(outcomes).value
  {
    if outcomes != [] {
      KeysBounded(outcomes[..|outcomes| - 1]);
    }
  }

  /** One ticket yields at most four keys, none of them the identity. */
  lemma RecordKeysBounded(data: seq<byte>, env: Env)
    requires KnownCurves(env) && RecordKeys(data, env).Success?
    ensures |RecordKeys(data, env).value| <= 4 && Infinity !in RecordKeys(data, env).value
  {
    var t := Decode(data, env.sha1, env.sha224).value;
    RecordKeysOfDecoded(data, env, t);
    var signature := TrimToParse(t.signature, env.parse, 3);
    SignatureKeysBounded(env.curveFromName(t.curveName), t, signature, env.parse(signature), env);
  }

  /** A parsed signature yields at most four keys, none of them the identity. */
  lemma SignatureKeysBounded(d: Domain, t: TicketFields, signature: seq<byte>, parsed: Option<Der>, env: Env)
    requires WellFormed(d) && KeysOfSignature(d, t, signature, parsed, env).Success?
    ensures var keys := KeysOfSignature(d, t, signature, parsed, env).value;
            |keys| <= 4 && Infinity !in keys
  {
    if parsed.value.DerSequence? && |parsed.value.items| == 2 {
      var r := BigEndian(parsed.value.items[0].contents);
      var s := BigEndian(parsed.value.items[1].contents);
      AcceptedKeysSound(d, r, s, t.hashedMessage, env.verifier(d, t.hashName, t.message, signature), 4);
    }
  }

  /** A run yields at most four keys per ticket, none of them the identity. */
  lemma RunKeysBounded(files: seq<seq<byte>>, env: Env)
    requires KnownCurves(env) && Collect(Outcomes(files, env)).Success?
    ensures |Collect(Outcomes(files, env)).value| <= 4 * |files|
    ensures Infinity !in Collect(Outcomes(files, env)).value
  {
    var outcomes := Outcomes(files, env);
    forall k | 0 <= k < |outcomes| && outcomes[k].Success?
      ensures |outcomes[k].value| <= 4 && Infinity !in outcomes[k].value
    {
      RecordKeysBounded(files[k], env);
    }
    KeysBounded(outcomes);
  }

  // ---------------------------------------------------------------------------
  // Reporting keys found more than once

  /** How many entries of points equal p. */
  function Count(points: seq<Point>, p: Point): nat
  {
    multiset(points)[p]
  }

  /** A point that occurs twice occurs at two distinct indices. */
  lemma {:induction false} TwiceAtTwoIndices(points: seq<Point>, p: Point)
    requires Count(points, p) >= 2
    ensures exists i, j :: 0 <= i < j < |points| && points[i] == p && points[j] == p
  {
    var last := |points| - 1;
    var init := points[..last];
    assert points == init + [points[last]];
    if points[last] == p {
      assert Count(init, p) >= 1;
      var i :| 0 <= i < |init| && init[i] == p;
      assert points[i] == p && points[last] == p;
    } else {
      TwiceAtTwoIndices(init, p);
      var i, j :| 0 <= i < j < |init| && init[i] == p && init[j] == p;
      assert points[i] == p && points[j] == p;
    }
  }

  /** A point at two distinct indices occurs at least twice. */
  lemma TwoIndicesCountTwice(points: seq<Point>, i: nat, j: nat)
    requires i < j < |points| && points[i] == points[j]
    ensures Count(points, points[i]) >= 2
  {
    var p := points[i];
    assert points == points[..j] + points[j..];
    assert points[..j][i] == p;
    assert points[j..][0] == p;
    assert multiset(points[..j])[p] >= 1 && multiset(points[j..])[p] >= 1;
  }

  /** Goes through the keys in order and reports each distinct key found more than once,
      once, with the number of times it was found; allUnique says that nothing was. */
  method ReportCollisions(validPoints: seq<Point>) returns (reported: seq<Point>, counts: seq<nat>, allUnique: bool)
    ensures |reported| == |counts|
    ensures forall k :: 0 <= k < |reported| ==> counts[k] == Count(validPoints, reported[k]) && counts[k] >= 2
    ensures forall i :: 0 <= i < |validPoints| && Count(validPoints, validPoints[i]) >= 2 ==> validPoints[i] in reported
    ensures forall k, l :: 0 <= k < l < |reported| ==> reported[k] != reported[l]
    ensures allUnique <==> forall i, j :: 0 <= i < j < |validPoints| ==> validPoints[i] != validPoints[j]
  {
    reported, counts := [], [];
    var i := 0;
    while i < |validPoints|
      invariant 0 <= i <= |validPoints|
      invariant |reported| == |counts|
      invariant forall k :: 0 <= k < |reported| ==> counts[k] == Count(validPoints, reported[k]) && counts[k] >= 2
      invariant forall j :: 0 <= j < i && Count(validPoints, validPoints[j]) >= 2 ==> validPoints[j] in reported
      invariant forall k, l :: 0 <= k < l < |reported| ==> reported[k] != reported[l]
    {
      var p := validPoints[i];
      if p !in reported {
        var count := Count(validPoints, p);
        if count > 1 {
          reported, counts := reported + [p], counts + [count];
        }
      }
      i := i + 1;
    }
    allUnique := |reported| == 0;
    if !allUnique {
      TwiceAtTwoIndices(validPoints, reported[0]);
    } else {
      forall i, j | 0 <= i < j < |validPoints|
        ensures validPoints[i] != validPoints[j]
      {
        if validPoints[i] == validPoints[j] {
          TwoIndicesCountTwice(validPoints, i, j);
        }
      }
    }
  }

  /** The outcome of a run: the repeated keys with their counts, and whether every key was
      found only once. */
  datatype Report = Report(reported: seq<Point>, counts: seq<nat>, allUnique: bool)

  /** The whole run over the ticket files. */
  method Run(files: seq<seq<byte>>, env: Env) returns (res: Result<Report, RunError>)
    requires KnownCurves(env)
    ensures res.Failure? <==> Collect(Outcomes(files, env)).Failure?
    ensures res.Success? ==>
              var points := Collect(Outcomes(files, env)).value;
              var rep := res.value;
              && |rep.reported| == |rep.counts|
              && (forall k :: 0 <= k < |rep.reported| ==> rep.counts[k] == Count(points, rep.reported[k]) >= 2)
              && (forall i :: 0 <= i < |points| && Count(points, points[i]) >= 2 ==> points[i] in rep.reported)
              && (forall k, l :: 0 <= k < l < |rep.reported| ==> rep.reported[k] != rep.reported[l])
              && (rep.allUnique <==> forall i, j :: 0 <= i < j < |points| ==> points[i] != points[j])
  {
    var validPoints := FindKeys(files, env);
    if validPoints.Failure? {
      return Failure(validPoints.error);
    }
    var reported, counts, allUnique := ReportCollisions(validPoints.value);
    res := Success(Report(reported, counts, allUnique));
  }
}
