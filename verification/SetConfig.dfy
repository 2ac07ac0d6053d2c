/** The legacy CRTC configuration call: stage a new routing, swap it in, roll back on failure.

  A connector leads to an encoder and an encoder to a CRTC. Each connector has an encoder of
  its own and one output bit of its own. The new routing is staged in fields of the connectors
  and encoders, then swapped with the one in force.
*/
module SetConfig {
  import opened Basics
  import opened BitMasks

  type Framebuffer = nat
  type Mode = nat

  class Crtc {
    var fb: Option<Framebuffer>
    var mode: Mode
    var x: int
    var y: int
    var enabled: bool
  }

  class Encoder {
    const possible: set<Crtc>
    var crtc: Crtc?
    var newCrtc: Crtc?

    constructor (possible: set<Crtc>)
      ensures this.possible == possible && crtc == null && newCrtc == null
    {
      this.possible := possible;
      crtc, newCrtc := null, null;
    }
  }

  class Connector {
    const outputType: bv32
    const best: Encoder
    var disconnected: bool
    var encoder: Encoder?
    var newEncoder: Encoder?

    constructor (outputType: bv32, best: Encoder)
      ensures this.outputType == outputType && this.best == best
      ensures encoder == null && newEncoder == null && !disconnected
    {
      this.outputType, this.best := outputType, best;
      disconnected, encoder, newEncoder := false, null, null;
    }
  }

  datatype Request = Request(
    crtc: Crtc?,
    mode: Option<Mode>,
    fb: Option<Framebuffer>,
    x: int,
    y: int,
    connectors: seq<Connector?>)

  // The routing as a value.

  datatype Links = Links(encoderOf: map<Connector, Encoder?>, crtcOf: map<Encoder, Crtc?>)

  /** What is common to all routings of one device. */
  ghost predicate Fixed(l: Links) {
    && (forall c :: c in l.encoderOf ==> c.best in l.crtcOf)
    && (forall c, d :: c in l.encoderOf && d in l.encoderOf && c.best == d.best ==> c == d)
    && (forall c :: c in l.encoderOf ==> l.encoderOf[c] == null || l.encoderOf[c] == c.best)
  }

  /** The outputs do not share bits. */
  ghost predicate DistinctOutputs(cs: set<Connector>) {
    && (forall c :: c in cs ==> c.outputType != 0)
    && (forall c, d :: c in cs && d in cs && c != d ==> !Meets(c.outputType, d.outputType))
  }

  /** The CRTC that a connector is fed by. */
  function Route(l: Links, c: Connector): Crtc?
    requires Fixed(l) && c in l.encoderOf
  {
    var e := l.encoderOf[c];
    if e == null then null else l.crtcOf[e]
  }

  /** The union of the output bits of a request. */
  function Masks(cs: seq<Connector?>): bv32 {
    if cs == [] then 0
    else On(Masks(cs[..|cs| - 1]), var c := cs[|cs| - 1]; if c == null then 0 else c.outputType)
  }

  predicate Requested(q: Request, c: Connector) {
    Meets(c.outputType, Masks(q.connectors))
  }

  function StagedEncoder(l: Links, q: Request, c: Connector): Encoder?
    requires Fixed(l) && c in l.encoderOf
  {
    if Requested(q, c) then c.best
    else if Route(l, c) != q.crtc then l.encoderOf[c]
    else null
  }

  function StagedCrtc(l: Links, q: Request, c: Connector): Crtc?
    requires Fixed(l) && c in l.encoderOf
  {
    if Requested(q, c) then q.crtc else Route(l, c)
  }

  /** The routing that the request asks for; encoders without a connector are let go. */
  ghost function Staged(l: Links, q: Request): Links
    requires Fixed(l)
  {
    Links(map c | c in l.encoderOf :: StagedEncoder(l, q, c),
          map e | e in l.crtcOf :: NewCrtc(l, q, e))
  }

  ghost function NewCrtc(l: Links, q: Request, e: Encoder): Crtc?
    requires Fixed(l)
  {
    if c :| c in l.encoderOf && StagedEncoder(l, q, c) == e then StagedCrtc(l, q, c) else null
  }

  /** The routing without the connectors that have nothing plugged in. */
  function Pruned(l: Links, unplugged: set<Connector>): Links {
    l.(encoderOf := map c | c in l.encoderOf :: if c in unplugged then null else l.encoderOf[c])
  }

  /** The routing without one CRTC. */
  function Decoupled(l: Links, crtc: Crtc): Links
    requires Fixed(l)
  {
    Links(map c | c in l.encoderOf :: if Route(l, c) == crtc then null else l.encoderOf[c],
          map e | e in l.crtcOf :: if l.crtcOf[e] == crtc then null else l.crtcOf[e])
  }

  predicate InUse(l: Links, crtc: Crtc)
    requires Fixed(l)
  {
    exists c :: c in l.encoderOf && Route(l, c) == crtc
  }

  /** Some staged connector would be fed by a CRTC that its encoder cannot take. */
  predicate Refused(l: Links, q: Request)
    requires Fixed(l)
  {
    exists c :: c in l.encoderOf && RefusedAt(l, q, c)
  }

  predicate RefusedAt(l: Links, q: Request, c: Connector)
    requires Fixed(l) && c in l.encoderOf
  {
    var e, crtc := StagedEncoder(l, q, c), StagedCrtc(l, q, c);
    e != null && crtc != null && crtc !in e.possible
  }

  predicate EncoderChanges(l: Links, q: Request, c: Connector)
    requires Fixed(l) && c in l.encoderOf
  {
    StagedEncoder(l, q, c) != null && StagedEncoder(l, q, c) != l.encoderOf[c]
  }

  predicate CrtcChanges(l: Links, q: Request, c: Connector)
    requires Fixed(l) && c in l.encoderOf
  {
    var e := StagedEncoder(l, q, c);
    if e == null then l.encoderOf[c] != null else StagedCrtc(l, q, c) != l.crtcOf[e]
  }

  predicate LinkChanges(l: Links, q: Request, c: Connector)
    requires Fixed(l) && c in l.encoderOf
  {
    EncoderChanges(l, q, c) || CrtcChanges(l, q, c)
  }

  /** What the picture of a CRTC depends on besides the routing. */
  datatype Picture = Picture(fb: Option<Framebuffer>, mode: Mode, x: int, y: int)

  /** The request needs a full mode set; p is the picture in force. */
  predicate ModeChanges(l: Links, q: Request, p: Picture)
    requires Fixed(l)
  {
    || (p.fb != q.fb && p.fb == None)
    || (q.mode.Some? && q.mode.value != p.mode)
    || exists c :: c in l.encoderOf && LinkChanges(l, q, c)
  }

  predicate FbChanges(q: Request, p: Picture) {
    (p.fb != q.fb && p.fb != None) || q.x != p.x || q.y != p.y
  }

  /** The call succeeds: the staging is not refused and the hardware, where it is asked, agrees. */
  ghost predicate Accepted(l: Links, q: Request, p: Picture, modeWorks: bool, flipWorks: bool)
    requires Fixed(l) && Fixed(Staged(l, q)) && q.crtc != null
  {
    && !Refused(l, q)
    && if ModeChanges(l, q, p) then modeWorks || !InUse(Staged(l, q), q.crtc) else flipWorks || !FbChanges(q, p)
  }

  // What staging does.

  lemma NewCrtcOf(l: Links, q: Request, c: Connector)
    requires Fixed(l) && c in l.encoderOf
    ensures StagedEncoder(l, q, c) == null || StagedEncoder(l, q, c) == c.best
    ensures StagedEncoder(l, q, c) == c.best ==> NewCrtc(l, q, c.best) == StagedCrtc(l, q, c)
  {
    hide Requested;
  }

  lemma StagedIsFixed(l: Links, q: Request)
    requires Fixed(l)
    ensures Fixed(Staged(l, q))
  {
    forall c | c in l.encoderOf
      ensures StagedEncoder(l, q, c) == null || StagedEncoder(l, q, c) == c.best
    {
      NewCrtcOf(l, q, c);
    }
  }

  /** Requested connectors get the CRTC, others lose it, and all other routes stay. */
  lemma StagedRoute(l: Links, q: Request, c: Connector)
    requires Fixed(l) && c in l.encoderOf && q.crtc != null
    ensures Fixed(Staged(l, q))
    ensures Route(Staged(l, q), c) ==
            if Requested(q, c) then q.crtc else if Route(l, c) == q.crtc then null else Route(l, c)
    ensures LinkChanges(l, q, c) <==> Route(Staged(l, q), c) != Route(l, c)
  {
    hide Requested, NewCrtc;
    StagedIsFixed(l, q);
    NewCrtcOf(l, q, c);
  }

  /** Where a connector ends up when the call has succeeded. */
  lemma FinalRoute(l: Links, q: Request, unplugged: set<Connector>, c: Connector)
    requires Fixed(l) && c in l.encoderOf && q.crtc != null
    ensures Fixed(Staged(l, q)) && Fixed(Pruned(Staged(l, q), unplugged))
    ensures Route(Pruned(Staged(l, q), unplugged), c) ==
            if c in unplugged then null
            else if Requested(q, c) then q.crtc
            else if Route(l, c) == q.crtc then null
            else Route(l, c)
  {
    hide Requested, Staged;
    StagedIsFixed(l, q);
    StagedRoute(l, q, c);
    PrunedIsFixed(Staged(l, q), unplugged);
    SameConnectors(l, q);
  }

  /** Switching a CRTC off detaches exactly its connectors and the unplugged ones. */
  lemma SwitchedOff(l: Links, crtc: Crtc, unplugged: set<Connector>, c: Connector)
    requires Fixed(l) && c in l.encoderOf
    ensures Fixed(Decoupled(l, crtc)) && Fixed(Pruned(Decoupled(l, crtc), unplugged))
    ensures Route(Pruned(Decoupled(l, crtc), unplugged), c) ==
            if c in unplugged || Route(l, c) == crtc then null else Route(l, c)
    ensures !InUse(Pruned(Decoupled(l, crtc), unplugged), crtc)
    ensures forall e :: e in l.crtcOf ==> Decoupled(l, crtc).crtcOf[e] != crtc
  {
  }

  lemma SameConnectors(l: Links, q: Request)
    requires Fixed(l)
    ensures Staged(l, q).encoderOf.Keys == l.encoderOf.Keys
  {
  }

  /** Staging the same request again changes nothing. */
  lemma StagedTwice(l: Links, q: Request)
    requires Fixed(l) && q.crtc != null
    ensures Fixed(Staged(l, q)) && Staged(Staged(l, q), q) == Staged(l, q)
  {
    hide Requested;
    var s := Staged(l, q);
    StagedIsFixed(l, q);
    forall c | c in l.encoderOf
      ensures StagedEncoder(s, q, c) == StagedEncoder(l, q, c)
      ensures StagedEncoder(s, q, c) != null ==> StagedCrtc(s, q, c) == StagedCrtc(l, q, c)
    {
      StagedRoute(l, q, c);
      NewCrtcOf(l, q, c);
    }
    forall e | e in l.crtcOf ensures NewCrtc(s, q, e) == NewCrtc(l, q, e) {
      if c :| c in l.encoderOf && StagedEncoder(l, q, c) == e {
        NewCrtcOf(l, q, c);
        NewCrtcOf(s, q, c);
      }
    }
  }

  /** Requested are exactly the listed connectors, because no two outputs share a bit. */
  lemma {:induction false} RequestedIsListed(cs: set<Connector>, q: Request, c: Connector)
    requires DistinctOutputs(cs) && c in cs
    requires forall k :: 0 <= k < |q.connectors| && q.connectors[k] != null ==> q.connectors[k] in cs
    ensures Requested(q, c) <==> c in q.connectors
    decreases |q.connectors|
  {
    hide On, Meets;
    NothingMeets(c.outputType);
    if q.connectors == [] {
    } else {
      var n := |q.connectors| - 1;
      var d := q.connectors[n];
      RequestedIsListed(cs, q.(connectors := q.connectors[..n]), c);
      assert q.connectors == q.connectors[..n] + [d];
      MeetsOn(c.outputType, Masks(q.connectors[..n]), if d == null then 0 else d.outputType);
      if d == c { ItselfMeets(c.outputType); }
    }
  }

  /** Whether a full mode set is due: no frame buffer yet, another mode, or some connector that has to
    come or to go. */
  lemma ModeChangesIff(l: Links, q: Request, p: Picture)
    requires Fixed(l) && DistinctOutputs(l.encoderOf.Keys) && Listed(l, q)
    requires q.crtc != null && q.mode.Some? && q.fb.Some?
    ensures ModeChanges(l, q, p)
            <==> || p.fb == None
                 || q.mode.value != p.mode
                 || exists c :: c in l.encoderOf && (if c in q.connectors then Route(l, c) != q.crtc else Route(l, c) == q.crtc)
  {
    hide Requested, LinkChanges;
    forall c | c in l.encoderOf
      ensures LinkChanges(l, q, c) <==> if c in q.connectors then Route(l, c) != q.crtc else Route(l, c) == q.crtc
    {
      StagedRoute(l, q, c);
      RequestedIsListed(l.encoderOf.Keys, q, c);
    }
  }

  /** The connectors of a request belong to the device. */
  ghost predicate Listed(l: Links, q: Request) {
    forall k :: 0 <= k < |q.connectors| && q.connectors[k] != null ==> q.connectors[k] in l.encoderOf
  }

  /** Staging is refused for a listed connector that cannot take the CRTC, or one that stays on a CRTC
    that it cannot take. */
  lemma RefusedMeans(l: Links, q: Request)
    requires Fixed(l) && DistinctOutputs(l.encoderOf.Keys) && Listed(l, q) && q.crtc != null
    ensures Refused(l, q)
            <==> exists c :: c in l.encoderOf &&
                   if c in q.connectors then q.crtc !in c.best.possible
                   else Route(l, c) != null && Route(l, c) != q.crtc && Route(l, c) !in c.best.possible
  {
    hide Requested;
    forall c | c in l.encoderOf
      ensures RefusedAt(l, q, c)
              <==> if c in q.connectors then q.crtc !in c.best.possible
                   else Route(l, c) != null && Route(l, c) != q.crtc && Route(l, c) !in c.best.possible
    {
      RequestedIsListed(l.encoderOf.Keys, q, c);
      NewCrtcOf(l, q, c);
    }
  }

  /** The CRTC is in use in the staged routing exactly if the request lists a connector. */
  lemma StagedInUseIff(l: Links, q: Request)
    requires Fixed(l) && DistinctOutputs(l.encoderOf.Keys) && Listed(l, q) && q.crtc != null
    ensures Fixed(Staged(l, q))
    ensures InUse(Staged(l, q), q.crtc) <==> exists c :: c in l.encoderOf && c in q.connectors
  {
    StagedIsFixed(l, q);
    SameConnectors(l, q);
    hide Requested, Staged, Route;
    forall c | c in l.encoderOf ensures Route(Staged(l, q), c) == q.crtc <==> c in q.connectors {
      StagedRoute(l, q, c);
      RequestedIsListed(l.encoderOf.Keys, q, c);
    }
  }

  /** When the call succeeds, in terms of the routes and the picture in force. */
  lemma AcceptedIff(l: Links, q: Request, p: Picture, modeWorks: bool, flipWorks: bool)
    requires Fixed(l) && DistinctOutputs(l.encoderOf.Keys) && Listed(l, q)
    requires q.crtc != null && q.mode.Some? && q.fb.Some?
    ensures Fixed(Staged(l, q))
    ensures var due := p.fb == None || q.mode.value != p.mode ||
                       exists c :: c in l.encoderOf && (if c in q.connectors then Route(l, c) != q.crtc else Route(l, c) == q.crtc);
            Accepted(l, q, p, modeWorks, flipWorks)
            <==> && (forall c :: c in l.encoderOf ==>
                       if c in q.connectors then q.crtc in c.best.possible
                       else Route(l, c) == null || Route(l, c) == q.crtc || Route(l, c) in c.best.possible)
                 && (due && (exists c :: c in l.encoderOf && c in q.connectors) ==> modeWorks)
                 && (!due && (q.fb != p.fb || q.x != p.x || q.y != p.y) ==> flipWorks)
  {
    ModeChangesIff(l, q, p);
    RefusedMeans(l, q);
    StagedInUseIff(l, q);
    hide ModeChanges, Refused, InUse, Staged, Route, Fixed, DistinctOutputs, Listed;
  }

  /** Asking for what is in force succeeds, whatever the hardware would answer. */
  lemma RestoreSucceeds(l: Links, q: Request, p: Picture, modeWorks: bool, flipWorks: bool)
    requires Fixed(l) && Possible(l) && DistinctOutputs(l.encoderOf.Keys) && Listed(l, q)
    requires q.crtc != null && q.fb.Some? && Picture(q.fb, p.mode, q.x, q.y) == p && q.mode == Some(p.mode)
    requires forall c :: c in l.encoderOf ==> (c in q.connectors <==> Route(l, c) == q.crtc)
    ensures Fixed(Staged(l, q)) && Accepted(l, q, p, modeWorks, flipWorks) && !ModeChanges(l, q, p)
  {
    AcceptedIff(l, q, p, modeWorks, flipWorks);
    ModeChangesIff(l, q, p);
    hide Accepted, ModeChanges, Staged, Fixed, DistinctOutputs;
  }

  /** Every route in force is one that the encoder can take. */
  predicate Possible(l: Links)
    requires Fixed(l)
  {
    forall c :: c in l.encoderOf ==> Route(l, c) == null || Route(l, c) in c.best.possible
  }

  /** Only a requested connector can make the staging fail. */
  lemma RefusedIff(l: Links, q: Request)
    requires Fixed(l) && Possible(l) && q.crtc != null
    ensures Refused(l, q) <==> exists c :: c in l.encoderOf && Requested(q, c) && q.crtc !in c.best.possible
  {
    hide Requested;
    forall c | c in l.encoderOf
      ensures RefusedAt(l, q, c) <==> Requested(q, c) && q.crtc !in c.best.possible
    {
      NewCrtcOf(l, q, c);
    }
  }

  lemma ChangesKeepPossible(l: Links, q: Request, unplugged: set<Connector>)
    requires Fixed(l) && Possible(l) && q.crtc != null
    ensures Fixed(Staged(l, q)) && (!Refused(l, q) ==> Possible(Staged(l, q)))
    ensures Fixed(Pruned(l, unplugged)) && Possible(Pruned(l, unplugged))
    ensures Fixed(Decoupled(l, q.crtc)) && Possible(Decoupled(l, q.crtc))
  {
    hide Requested, NewCrtc;
    StagedIsFixed(l, q);
    if !Refused(l, q) {
      forall c | c in l.encoderOf
        ensures Route(Staged(l, q), c) == null || Route(Staged(l, q), c) in c.best.possible
      {
        StagedRoute(l, q, c);
        assert !RefusedAt(l, q, c);
      }
    }
  }

  lemma PrunedIsFixed(l: Links, unplugged: set<Connector>)
    requires Fixed(l)
    ensures Fixed(Pruned(l, unplugged))
  {
  }

  lemma PrunedUsesLess(l: Links, unplugged: set<Connector>, crtc: Crtc)
    requires Fixed(l)
    ensures Fixed(Pruned(l, unplugged)) && (InUse(Pruned(l, unplugged), crtc) ==> InUse(l, crtc))
  {
    var p := Pruned(l, unplugged);
    if c :| c in p.encoderOf && Route(p, c) == crtc {
      assert c in l.encoderOf && Route(l, c) == crtc;
    }
  }

  lemma DecoupledIsFixed(l: Links, crtc: Crtc)
    requires Fixed(l)
    ensures Fixed(Decoupled(l, crtc))
  {
  }

  lemma AllKeepPossible(l: Links, q: Request, unplugged: set<Connector>)
    requires Fixed(l) && Possible(l) && q.crtc != null
    ensures Fixed(Staged(l, q)) && Fixed(Decoupled(l, q.crtc))
    ensures Fixed(Pruned(Decoupled(l, q.crtc), unplugged)) && Possible(Pruned(Decoupled(l, q.crtc), unplugged))
    ensures !Refused(l, q) ==> && Possible(Staged(l, q))
                               && Fixed(Pruned(Staged(l, q), unplugged)) && Possible(Pruned(Staged(l, q), unplugged))
  {
    hide Fixed, Possible, Refused, Pruned, Staged, Decoupled;
    ChangesKeepPossible(l, q, unplugged);
    ChangesKeepPossible(Decoupled(l, q.crtc), q, unplugged);
    if !Refused(l, q) {
      ChangesKeepPossible(Staged(l, q), q, unplugged);
    }
  }

  // Any sequence of calls.

  /** What a call has come to; a full mode set also takes unplugged connectors off. */
  datatype Outcome =
    | Configured(q: Request, full: bool, unplugged: set<Connector>)
    | SwitchedOffCrtc(crtc: Crtc, unplugged: set<Connector>)
    | Failed

  ghost function AfterCall(l: Links, o: Outcome): (m: Links)
    requires Fixed(l) && (o.Configured? ==> o.q.crtc != null)
    ensures Fixed(m) && m.encoderOf.Keys == l.encoderOf.Keys
  {
    match o
    case Configured(q, full, unplugged) =>
      StagedIsFixed(l, q);
      PrunedIsFixed(Staged(l, q), unplugged);
      if full then Pruned(Staged(l, q), unplugged) else Staged(l, q)
    case SwitchedOffCrtc(crtc, unplugged) =>
      DecoupledIsFixed(l, crtc);
      Pruned(Decoupled(l, crtc), unplugged)
    case Failed => l
  }

  ghost predicate Outcomes(os: seq<Outcome>) {
    forall k :: 0 <= k < |os| ==> os[k].Configured? ==> os[k].q.crtc != null
  }

  ghost function AfterCalls(l: Links, os: seq<Outcome>): (m: Links)
    requires Fixed(l) && Outcomes(os)
    ensures Fixed(m) && m.encoderOf.Keys == l.encoderOf.Keys
  {
    if os == [] then l else AfterCall(AfterCalls(l, os[..|os| - 1]), os[|os| - 1])
  }

  /** The same for one connector alone, starting from its route r. */
  function RouteAfter(r: Crtc?, c: Connector, os: seq<Outcome>): Crtc? {
    if os == [] then r
    else
      var before := RouteAfter(r, c, os[..|os| - 1]);
      match os[|os| - 1]
      case Configured(q, full, unplugged) =>
        if full && c in unplugged then null
        else if Requested(q, c) then q.crtc
        else if before == q.crtc then null
        else before
      case SwitchedOffCrtc(crtc, unplugged) =>
        if c in unplugged || before == crtc then null else before
      case Failed => before
  }

  /** After any sequence of calls a connector is where its own history puts it: connectors do not
    disturb each other, and failed calls leave no trace. */
  lemma {:induction false} ConnectorsAreIndependent(l: Links, os: seq<Outcome>, c: Connector)
    requires Fixed(l) && Outcomes(os) && c in l.encoderOf
    ensures Route(AfterCalls(l, os), c) == RouteAfter(Route(l, c), c, os)
  {
    hide Requested, Staged, Pruned, Decoupled;
    if os == [] {
    } else {
      var o, m := os[|os| - 1], AfterCalls(l, os[..|os| - 1]);
      ConnectorsAreIndependent(l, os[..|os| - 1], c);
      match o
      case Configured(q, full, unplugged) =>
        StagedRoute(m, q, c);
        FinalRoute(m, q, unplugged, c);
      case SwitchedOffCrtc(crtc, unplugged) =>
        SwitchedOff(m, crtc, unplugged, c);
      case Failed =>
    }
  }

  /** Where a call leaves a connector. */
  ghost function OutcomeRoute(l: Links, o: Outcome, c: Connector): Crtc?
    requires Fixed(l) && c in l.encoderOf
  {
    match o
    case Configured(q, full, unplugged) =>
      if full && c in unplugged then null
      else if c in q.connectors then q.crtc
      else if Route(l, c) == q.crtc then null
      else Route(l, c)
    case SwitchedOffCrtc(crtc, unplugged) =>
      if c in unplugged || Route(l, c) == crtc then null else Route(l, c)
    case Failed => Route(l, c)
  }

  lemma OutcomeRouteIs(l: Links, o: Outcome, c: Connector)
    requires Fixed(l) && c in l.encoderOf
    requires o.Configured? ==> o.q.crtc != null && DistinctOutputs(l.encoderOf.Keys) && Listed(l, o.q)
    ensures Route(AfterCall(l, o), c) == OutcomeRoute(l, o, c)
  {
    hide Requested, Staged, Pruned, Decoupled;
    match o
    case Configured(q, full, unplugged) =>
      StagedRoute(l, q, c);
      FinalRoute(l, q, unplugged, c);
      RequestedIsListed(l.encoderOf.Keys, q, c);
    case SwitchedOffCrtc(crtc, unplugged) =>
      SwitchedOff(l, crtc, unplugged, c);
    case Failed =>
  }

  // Both sets of links, and the exchange between them.

  datatype Both = Both(now: Links, next: Links)

  function Empty(l: Links): Links {
    Links(map c | c in l.encoderOf :: null, map e | e in l.crtcOf :: null)
  }

  function Swapped(b: Both, updateOld: bool, clearNew: bool): Both {
    Both(if updateOld then b.next else b.now, if clearNew then Empty(b.now) else b.now)
  }

  /** Whatever was staged, swapping in and then swapping back restores the routing. */
  lemma SwapBack(b: Both)
    ensures Swapped(Swapped(b, true, false), true, false) == b
    ensures Swapped(Swapped(b, true, false), true, true).now == b.now
    ensures Swapped(b, false, true).now == b.now
  {
  }

  const EINVAL := 22

  class ModeConfig {
    const connectors: seq<Connector>
    const encoders: seq<Encoder>
    const crtcs: seq<Crtc>

    constructor (support: bv32, crtcMask: bv32 -> set<Crtc>, crtcs: seq<Crtc>)
      requires Distinct(crtcs)
      ensures Valid() && this.crtcs == crtcs && Possible(Now())
      ensures forall b :: OneBit(b) ==> (Has(support, b) <==> exists c :: c in connectors && c.outputType == b)
    {
      hide *;
      var cs, es := OutputInit(support, crtcMask);
      connectors, encoders, this.crtcs := cs, es, crtcs;
      new;
      NothingRouted(crtcMask);
    }

    lemma NothingRouted(crtcMask: bv32 -> set<Crtc>)
      requires Distinct(crtcs) && Paired(connectors, encoders, crtcMask) && DistinctOutputs(set c | c in connectors)
      ensures Valid() && Possible(Now())
    {
      hide Distinct;
      assert Lists();
      assert Next() == Empty(Now());
      assert forall c :: c in Now().encoderOf ==> Now().encoderOf[c] == null && c.best in encoders;
      assert Fixed(Now()) by {
        forall c, d | c in connectors && d in connectors && c.best == d.best ensures c == d {
          SameEncoder(connectors, encoders, crtcMask, c, d);
        }
      }
    }

    ghost function Encoders(): map<Connector, Encoder?>
      reads connectors`encoder
    {
      map c | c in connectors :: c.encoder
    }

    ghost function NewEncoders(): map<Connector, Encoder?>
      reads connectors`newEncoder
    {
      map c | c in connectors :: c.newEncoder
    }

    ghost function Crtcs(): map<Encoder, Crtc?>
      reads encoders`crtc
    {
      map e | e in encoders :: e.crtc
    }

    ghost function NewCrtcs(): map<Encoder, Crtc?>
      reads encoders`newCrtc
    {
      map e | e in encoders :: e.newCrtc
    }

    ghost function Now(): Links
      reads connectors`encoder, encoders`crtc
    {
      Links(Encoders(), Crtcs())
    }

    ghost function Next(): Links
      reads connectors`newEncoder, encoders`newCrtc
    {
      Links(NewEncoders(), NewCrtcs())
    }

    ghost function Unplugged(): set<Connector>
      reads connectors`disconnected
    {
      set c | c in connectors && c.disconnected
    }

    function PictureOf(crtc: Crtc): Picture
      reads crtc`fb, crtc`mode, crtc`x, crtc`y
    {
      Picture(crtc.fb, crtc.mode, crtc.x, crtc.y)
    }

    ghost function Pictures(): map<Crtc, Picture>
      reads crtcs`fb, crtcs`mode, crtcs`x, crtcs`y
    {
      map c | c in crtcs :: PictureOf(c)
    }

    ghost predicate Lists() {
      Distinct(connectors) && Distinct(encoders) && Distinct(crtcs)
    }

    /** Between two calls nothing is staged. */
    ghost predicate Valid()
      reads connectors`encoder, encoders`crtc, connectors`newEncoder, encoders`newCrtc
    {
      Lists() && DistinctOutputs(set c | c in connectors) && Fixed(Now()) && Next() == Empty(Now())
    }

    method SwapChanged(updateOld: bool, clearNew: bool)
      requires Lists()
      modifies connectors`encoder, connectors`newEncoder, encoders`crtc, encoders`newCrtc
      ensures Both(Now(), Next()) == Swapped(old(Both(Now(), Next())), updateOld, clearNew)
    {
      SwapChangedEncoders(updateOld, clearNew);
      SwapChangedCrtcs(updateOld, clearNew);
    }

    method SwapChangedEncoders(updateOld: bool, clearNew: bool)
      requires Lists()
      modifies connectors`encoder, connectors`newEncoder
      ensures Encoders() == old(if updateOld then NewEncoders() else Encoders())
      ensures NewEncoders() == old(if clearNew then map c | c in connectors :: null else Encoders())
    {
      for k := 0 to |connectors|
        invariant forall j :: 0 <= j < k ==>
          && connectors[j].encoder == old(if updateOld then connectors[j].newEncoder else connectors[j].encoder)
          && connectors[j].newEncoder == old(if clearNew then null else connectors[j].encoder)
        invariant forall j :: k <= j < |connectors| ==>
          && connectors[j].encoder == old(connectors[j].encoder)
          && connectors[j].newEncoder == old(connectors[j].newEncoder)
      {
        var connector := connectors[k];
        var temp := connector.encoder;
        if updateOld {
          connector.encoder := connector.newEncoder;
        }
        connector.newEncoder := if temp != null && !clearNew then temp else null;
      }
    }

    method SwapChangedCrtcs(updateOld: bool, clearNew: bool)
      requires Lists()
      modifies encoders`crtc, encoders`newCrtc
      ensures Crtcs() == old(if updateOld then NewCrtcs() else Crtcs())
      ensures NewCrtcs() == old(if clearNew then map e | e in encoders :: null else Crtcs())
    {
      for k := 0 to |encoders|
        invariant forall j :: 0 <= j < k ==>
          && encoders[j].crtc == old(if updateOld then encoders[j].newCrtc else encoders[j].crtc)
          && encoders[j].newCrtc == old(if clearNew then null else encoders[j].crtc)
        invariant forall j :: k <= j < |encoders| ==>
          && encoders[j].crtc == old(encoders[j].crtc)
          && encoders[j].newCrtc == old(encoders[j].newCrtc)
      {
        var encoder := encoders[k];
        var crtc := encoder.crtc;
        if updateOld {
          encoder.crtc := encoder.newCrtc;
        }
        encoder.newCrtc := if crtc != null && !clearNew then crtc else null;
      }
    }

    method InitNew()
      requires Lists()
      modifies connectors`newEncoder, encoders`newCrtc
      ensures NewEncoders() == map c | c in connectors :: null
      ensures NewCrtcs() == map e | e in encoders :: null
    {
      for k := 0 to |connectors|
        modifies connectors`newEncoder
        invariant forall j :: 0 <= j < k ==> connectors[j].newEncoder == null
      {
        connectors[k].newEncoder := null;
      }
      assert forall c :: c in connectors ==> c.newEncoder == null;
      for k := 0 to |encoders|
        modifies encoders`newCrtc
        invariant forall j :: 0 <= j < k ==> encoders[j].newCrtc == null
      {
        encoders[k].newCrtc := null;
      }
      assert forall e :: e in encoders ==> e.newCrtc == null;
    }

    /** What the specification says about one connector, in terms of the fields. */
    lemma OneConnector(q: Request, c: Connector)
      requires Fixed(Now()) && c in connectors
      ensures c in Now().encoderOf
      ensures c.encoder == null || (c.encoder == c.best && c.best in encoders)
      ensures StagedEncoder(Now(), q, c) ==
              if Requested(q, c) then c.best
              else if c.encoder != null && c.encoder.crtc != q.crtc then c.encoder else null
      ensures EncoderChanges(Now(), q, c)
              <==> StagedEncoder(Now(), q, c) != null && StagedEncoder(Now(), q, c) != c.encoder
      ensures Route(Now(), c) == if c.encoder == null then null else c.encoder.crtc
    {
      hide Requested;
    }

    /** The first staging loop: every connector gets its encoder to be. */
    method StageEncoders(q: Request, masks: bv32) returns (changed: bool)
      requires Lists() && Fixed(Now()) && masks == Masks(q.connectors)
      modifies connectors`newEncoder
      ensures forall c :: c in connectors ==> c in Now().encoderOf && c.newEncoder == StagedEncoder(Now(), q, c)
      ensures changed <==> exists c :: c in connectors && EncoderChanges(Now(), q, c)
    {
      hide Masks, Meets, Fixed, StagedEncoder, EncoderChanges, Route;
      ghost var l := Now();
      assert forall j :: 0 <= j < |connectors| ==> connectors[j] in l.encoderOf;
      changed := false;
      for k := 0 to |connectors|
        invariant Now() == l
        invariant forall j :: 0 <= j < k ==> connectors[j].newEncoder == StagedEncoder(l, q, connectors[j])
        invariant changed <==> exists j :: 0 <= j < k && EncoderChanges(l, q, connectors[j])
      {
        var connector := connectors[k];
        OneConnector(q, connector);
        if Meets(connector.outputType, masks) {
          connector.newEncoder := connector.best;
        } else if connector.encoder != null && connector.encoder.crtc != q.crtc {
          connector.newEncoder := connector.encoder;
        } else {
          connector.newEncoder := null;
        }
        if connector.newEncoder != null && connector.newEncoder != connector.encoder {
          changed := true;
        }
      }
    }

    lemma TwoConnectors(q: Request, c: Connector, d: Connector)
      requires Fixed(Now()) && c in connectors && d in connectors && c != d
      ensures c in Now().encoderOf && d in Now().encoderOf
      ensures StagedEncoder(Now(), q, c) == null || StagedEncoder(Now(), q, c) != d.best
    {
      hide Requested;
    }

    lemma StagedLink(q: Request, c: Connector)
      requires Fixed(Now()) && c in connectors
      ensures c in Now().encoderOf
      ensures var e := StagedEncoder(Now(), q, c);
              && (e != null ==>
                    && e == c.best && e in encoders
                    && NewCrtc(Now(), q, e) == StagedCrtc(Now(), q, c)
                    && (e == c.encoder || c.encoder == null)
                    && StagedCrtc(Now(), q, c) == if Requested(q, c) then q.crtc else e.crtc)
              && (RefusedAt(Now(), q, c) <==>
                    e != null && StagedCrtc(Now(), q, c) != null && StagedCrtc(Now(), q, c) !in e.possible)
              && (CrtcChanges(Now(), q, c) <==>
                    if e == null then c.encoder != null else StagedCrtc(Now(), q, c) != e.crtc)
    {
      hide Requested, NewCrtc;
      NewCrtcOf(Now(), q, c);
    }

    /** Stages the CRTC of one connector's encoder. */
    method StageCrtc(q: Request, masks: bv32, connector: Connector) returns (ok: bool, changed: bool)
      requires Fixed(Now()) && masks == Masks(q.connectors)
      requires connector in connectors && connector in Now().encoderOf
      requires connector.newEncoder == StagedEncoder(Now(), q, connector)
      modifies encoders`newCrtc
      ensures ok <==> !RefusedAt(Now(), q, connector)
      ensures ok ==> (changed <==> CrtcChanges(Now(), q, connector))
      ensures forall e :: e in encoders && e != connector.best ==> e.newCrtc == old(e.newCrtc)
      ensures ok && connector.newEncoder != null ==>
                connector.newEncoder.newCrtc == StagedCrtc(Now(), q, connector)
      ensures connector.newEncoder == null ==>
                forall e :: e in encoders ==> e.newCrtc == null || e.newCrtc == old(e.newCrtc)
    {
      hide Masks, Meets, Fixed, StagedEncoder, StagedCrtc, CrtcChanges, RefusedAt, NewCrtc, Route;
      StagedLink(q, connector);
      ok, changed := true, false;
      var encoder := connector.newEncoder;
      if encoder != null {
        var crtc := encoder.crtc;
        if Meets(connector.outputType, masks) {
          crtc := q.crtc;
        }
        if crtc != null && crtc !in encoder.possible {
          return false, changed;
        }
        if crtc != encoder.crtc {
          changed := true;
        }
        encoder.newCrtc := crtc;
        // a connector has one encoder, so there is no former other one to be let go
        assert encoder == connector.encoder || connector.encoder == null;
      } else if connector.encoder != null {
        OneConnector(q, connector);
        connector.encoder.newCrtc := null;
        changed := true;
      }
    }

    /** The second staging loop: every staged encoder gets its CRTC to be, or the request is refused. */
    method StageCrtcs(q: Request, masks: bv32) returns (ok: bool, changed: bool)
      requires Lists() && Fixed(Now()) && masks == Masks(q.connectors)
      requires forall c :: c in connectors ==> c in Now().encoderOf && c.newEncoder == StagedEncoder(Now(), q, c)
      requires forall e :: e in encoders ==> e.newCrtc == null
      modifies encoders`newCrtc
      ensures ok <==> !Refused(Now(), q)
      ensures ok ==> forall e :: e in encoders ==> e.newCrtc == NewCrtc(Now(), q, e)
      ensures ok ==> (changed <==> exists c :: c in connectors && CrtcChanges(Now(), q, c))
    {
      hide Masks, Meets, Fixed, StagedEncoder, StagedCrtc, CrtcChanges, RefusedAt, NewCrtc, Route;
      ghost var l := Now();
      ok, changed := true, false;
      for k := 0 to |connectors|
        invariant Now() == l && ok
        invariant forall j :: 0 <= j < k ==> !RefusedAt(l, q, connectors[j])
        invariant changed <==> exists j :: 0 <= j < k && CrtcChanges(l, q, connectors[j])
        invariant forall j :: 0 <= j < k && connectors[j].newEncoder != null ==>
                    connectors[j].newEncoder.newCrtc == StagedCrtc(l, q, connectors[j])
        invariant forall i :: 0 <= i < |encoders| ==>
                    encoders[i].newCrtc == null || exists j :: 0 <= j < k && connectors[j].newEncoder == encoders[i]
      {
        forall j | 0 <= j < |connectors| && j != k
          ensures connectors[j].newEncoder == null || connectors[j].newEncoder != connectors[k].best
        {
          TwoConnectors(q, connectors[j], connectors[k]);
        }
        StagedLink(q, connectors[k]);
        var stepOk, stepChanged := StageCrtc(q, masks, connectors[k]);
        if !stepOk {
          return false, changed;
        }
        if stepChanged {
          changed := true;
        }
      }
      forall e | e in encoders ensures e.newCrtc == NewCrtc(l, q, e) {
        AllStaged(l, q, e);
      }
    }

    lemma AllStaged(l: Links, q: Request, e: Encoder)
      requires l == Now() && Fixed(l) && e in encoders
      requires forall c :: c in connectors ==> c in l.encoderOf && c.newEncoder == StagedEncoder(l, q, c)
      requires forall c :: c in connectors && c.newEncoder != null ==> c.newEncoder.newCrtc == StagedCrtc(l, q, c)
      requires e.newCrtc == null || exists c :: c in connectors && c.newEncoder == e
      ensures e.newCrtc == NewCrtc(l, q, e)
    {
      hide Requested, StagedCrtc, StagedEncoder, Fixed;
      if c :| c in connectors && c.newEncoder == e {
        StagedLink(q, c);
      }
    }

    method CollectMasks(cs: seq<Connector?>) returns (masks: bv32)
      ensures masks == Masks(cs)
    {
      masks := 0;
      for k := 0 to |cs|
        invariant masks == Masks(cs[..k])
      {
        assert cs[..k + 1][..k] == cs[..k];
        if cs[k] != null {
          masks := On(masks, cs[k].outputType);
        } else {
          OnNothing(masks);
        }
      }
      assert cs[..|cs|] == cs;
    }

    /** All of the staging; changed says whether a route will change. */
    method Stage(q: Request) returns (ok: bool, changed: bool)
      requires Lists() && Fixed(Now())
      modifies connectors`newEncoder, encoders`newCrtc
      ensures ok <==> !Refused(Now(), q)
      ensures ok ==> Next() == Staged(Now(), q)
      ensures ok ==> (changed <==> exists c :: c in Now().encoderOf && LinkChanges(Now(), q, c))
    {
      hide *;
      ghost var l := Now();
      var masks := CollectMasks(q.connectors);
      InitNew();
      NothingStaged();
      var encoderChanged := StageEncoders(q, masks);
      ok, changed := StageCrtcs(q, masks);
      if ok {
        EverythingStaged(q);
        ChangesMean(q);
      }
      changed := encoderChanged || changed;
    }

    lemma NothingStaged()
      requires NewCrtcs() == map e | e in encoders :: null
      ensures forall e :: e in encoders ==> e.newCrtc == null
    {
      forall e | e in encoders ensures e.newCrtc == null {
        assert e.newCrtc == NewCrtcs()[e];
      }
    }

    lemma EverythingStaged(q: Request)
      requires Fixed(Now())
      requires forall c :: c in connectors ==> c in Now().encoderOf && c.newEncoder == StagedEncoder(Now(), q, c)
      requires forall e :: e in encoders ==> e.newCrtc == NewCrtc(Now(), q, e)
      ensures Next() == Staged(Now(), q)
    {
      hide StagedEncoder, NewCrtc, Fixed;
    }

    lemma ChangesMean(q: Request)
      requires Fixed(Now())
      ensures forall c :: c in connectors <==> c in Now().encoderOf
      ensures (exists c :: c in Now().encoderOf && LinkChanges(Now(), q, c))
              <==> exists c :: c in connectors && (EncoderChanges(Now(), q, c) || CrtcChanges(Now(), q, c))
    {
      hide EncoderChanges, CrtcChanges, Fixed;
    }

    /** The helper of the DRM core: does some connector lead to this CRTC? */
    method CrtcInUse(crtc: Crtc) returns (used: bool)
      requires Fixed(Now())
      ensures used == InUse(Now(), crtc)
    {
      used := false;
      for k := 0 to |connectors|
        invariant used <==> exists j :: 0 <= j < k && connectors[j] in Now().encoderOf && Route(Now(), connectors[j]) == crtc
      {
        var connector := connectors[k];
        OneConnectorRoute(connector);
        if connector.encoder != null && connector.encoder.crtc == crtc {
          used := true;
        }
      }
    }

    lemma OneConnectorRoute(c: Connector)
      requires Fixed(Now()) && c in connectors
      ensures c in Now().encoderOf
      ensures Route(Now(), c) == if c.encoder == null then null else c.encoder.crtc
    {
    }

    /** The contract of the DRM core for setting a mode: all or nothing, and nothing on an unused CRTC. */
    method SetMode(crtc: Crtc, mode: Mode, x: int, y: int, works: bool) returns (ok: bool)
      requires Fixed(Now())
      modifies crtc`mode, crtc`x, crtc`y, crtc`enabled
      ensures ok <==> works || !InUse(Now(), crtc)
      ensures PictureOf(crtc) == if works && InUse(Now(), crtc) then Picture(crtc.fb, mode, x, y)
                                 else old(PictureOf(crtc))
      ensures crtc.enabled == if ok then InUse(Now(), crtc) else old(crtc.enabled)
    {
      ok := true;
      var wasEnabled := crtc.enabled;
      crtc.enabled := CrtcInUse(crtc);
      if !crtc.enabled {
        return;
      }
      if works {
        crtc.mode, crtc.x, crtc.y := mode, x, y;
      } else {
        crtc.enabled := wasEnabled;
        ok := false;
      }
    }

    /** Shows the frame buffer at another offset if the flip works. */
    method ModeSetBase(crtc: Crtc, x: int, y: int, works: bool) returns (ok: bool)
      modifies crtc`x, crtc`y
      ensures ok == works
      ensures PictureOf(crtc) == if works then old(PictureOf(crtc)).(x := x, y := y) else old(PictureOf(crtc))
    {
      ok := works;
      if works {
        crtc.x, crtc.y := x, y;
      }
    }

    method DropUnplugged()
      requires Lists()
      modifies connectors`encoder
      ensures forall c :: c in connectors ==> c.encoder == if c.disconnected then null else old(c.encoder)
      ensures Now() == Pruned(old(Now()), Unplugged())
    {
      for k := 0 to |connectors|
        invariant forall j :: 0 <= j < k ==>
          connectors[j].encoder == if connectors[j].disconnected then null else old(connectors[j].encoder)
        invariant forall j :: k <= j < |connectors| ==> connectors[j].encoder == old(connectors[j].encoder)
      {
        var connector := connectors[k];
        if connector.encoder != null && connector.disconnected {
          connector.encoder := null;
        }
      }
    }

    /** Lets go of unplugged connectors and turns off the CRTCs that nothing leads to. */
    method DisableUnused()
      requires Lists() && Fixed(Now())
      modifies connectors`encoder, crtcs`fb, crtcs`x, crtcs`y, crtcs`enabled
      ensures Now() == Pruned(old(Now()), Unplugged()) && Fixed(Now())
      ensures forall r :: r in crtcs ==>
                && (r.enabled <==> InUse(Now(), r))
                && (r.enabled ==> PictureOf(r) == old(PictureOf(r)))
                && (!r.enabled ==> r.fb == None)
    {
      hide Fixed, InUse, Pruned;
      PrunedIsFixed(Now(), Unplugged());
      DropUnplugged();
      ghost var l := Now();
      for k := 0 to |crtcs|
        modifies crtcs`fb, crtcs`x, crtcs`y, crtcs`enabled
        invariant Now() == l
        invariant forall j :: 0 <= j < k ==>
          && (crtcs[j].enabled <==> InUse(l, crtcs[j]))
          && (crtcs[j].enabled ==> PictureOf(crtcs[j]) == old(PictureOf(crtcs[j])))
          && (!crtcs[j].enabled ==> crtcs[j].fb == None)
        invariant forall j :: k <= j < |crtcs| ==> PictureOf(crtcs[j]) == old(PictureOf(crtcs[j]))
      {
        DisableIfUnused(crtcs[k]);
      }
    }

    method DisableIfUnused(crtc: Crtc)
      requires Fixed(Now())
      modifies crtc`fb, crtc`x, crtc`y, crtc`enabled
      ensures crtc.enabled <==> InUse(Now(), crtc)
      ensures crtc.enabled ==> PictureOf(crtc) == old(PictureOf(crtc))
      ensures !crtc.enabled ==> crtc.fb == None
    {
      hide Fixed, InUse;
      crtc.enabled := CrtcInUse(crtc);
      if !crtc.enabled {
        var oldFb := crtc.fb;
        crtc.fb := None;
        if oldFb != None {
          var works: bool := *;
          var _ := ModeSetBase(crtc, 0, 0, works);
        }
      }
    }

    /** Takes the CRTC away from every encoder, and those encoders from their connectors. */
    method DisableCrtc(crtc: Crtc)
      requires Lists() && Fixed(Now())
      modifies connectors`encoder, encoders`crtc, crtcs`fb, crtcs`x, crtcs`y, crtcs`enabled
      ensures Now() == Pruned(Decoupled(old(Now()), crtc), Unplugged()) && Fixed(Now())
      ensures forall r :: r in crtcs ==>
                if InUse(Now(), r) then PictureOf(r) == old(PictureOf(r)) else r.fb == None
    {
      hide Fixed, InUse, Pruned, Decoupled;
      Decouple(crtc);
      DecoupledIsFixed(old(Now()), crtc);
      DisableUnused();
    }

    method Decouple(crtc: Crtc)
      requires Lists() && Fixed(Now())
      modifies connectors`encoder, encoders`crtc
      ensures Now() == Decoupled(old(Now()), crtc)
    {
      hide Fixed, InUse, Decoupled, Route;
      ghost var l := Now();
      for k := 0 to |encoders|
        invariant forall i :: 0 <= i < |encoders| ==>
          encoders[i].crtc == if i < k && old(encoders[i].crtc) == crtc then null else old(encoders[i].crtc)
        invariant forall c :: c in connectors ==>
          c.encoder == if Gone(old(c.encoder), encoders[..k], l.crtcOf, crtc) then null else old(c.encoder)
      {
        var encoder := encoders[k];
        GoneOneMore(encoders, k, l.crtcOf, crtc);
        if encoder.crtc == crtc {
          encoder.crtc := null;
          Detach(encoder);
        }
      }
      assert encoders[..|encoders|] == encoders;
      assert forall c :: c in connectors ==> l.encoderOf[c] == old(c.encoder);
      assert forall e :: e in encoders ==> l.crtcOf[e] == old(e.crtc);
      AllDecoupled(l, crtc);
    }

    lemma AllDecoupled(l: Links, crtc: Crtc)
      requires Fixed(l) && l.encoderOf.Keys == (set c | c in connectors) && l.crtcOf.Keys == (set e | e in encoders)
      requires forall e :: e in encoders ==> e.crtc == if l.crtcOf[e] == crtc then null else l.crtcOf[e]
      requires forall c :: c in connectors ==>
                 c.encoder == if Gone(l.encoderOf[c], encoders, l.crtcOf, crtc) then null else l.encoderOf[c]
      ensures Now() == Decoupled(l, crtc)
    {
    }

    /** Takes an encoder away from the connectors that use it. */
    method Detach(encoder: Encoder)
      requires Lists()
      modifies connectors`encoder
      ensures forall c :: c in connectors ==> c.encoder == if old(c.encoder) == encoder then null else old(c.encoder)
    {
      for k := 0 to |connectors|
        invariant forall j :: 0 <= j < k ==>
          connectors[j].encoder == if old(connectors[j].encoder) == encoder then null else old(connectors[j].encoder)
        invariant forall j :: k <= j < |connectors| ==> connectors[j].encoder == old(connectors[j].encoder)
      {
        if connectors[k].encoder == encoder {
          connectors[k].encoder := null;
        }
      }
    }

    /** Makes the hardware follow the routing that has been swapped in. */
    method Commit(q: Request, modeChanged: bool, fbChanged: bool, modeWorks: bool, flipWorks: bool) returns (ok: bool)
      requires Lists() && Fixed(Now())
      requires q.crtc != null && q.crtc in crtcs && q.mode.Some? && q.fb.Some?
      modifies connectors`encoder, crtcs
      ensures ok <==> if modeChanged then modeWorks || !InUse(old(Now()), q.crtc) else flipWorks || !fbChanged
      ensures !ok ==> Now() == old(Now()) && Pictures() == old(Pictures())
      ensures !ok ==> forall r :: r in crtcs ==> r.enabled == old(r.enabled)
      ensures ok ==> Now() == if modeChanged then Pruned(old(Now()), Unplugged()) else old(Now())
      ensures ok ==> Fixed(Now()) && forall r :: r in crtcs ==>
                if modeChanged && !InUse(Now(), r) then r.fb == None
                else if r == q.crtc && (modeChanged || fbChanged) then
                  PictureOf(r) == Picture(q.fb, if modeChanged then q.mode.value else old(r.mode), q.x, q.y)
                else PictureOf(r) == old(PictureOf(r))
    {
      hide Fixed, InUse, Pruned, Route, Distinct;
      var crtc := q.crtc;
      var oldFb := crtc.fb;
      if modeChanged {
        var used := CrtcInUse(crtc);
        if used {
          crtc.fb := q.fb;
          ok := SetMode(crtc, q.mode.value, q.x, q.y, modeWorks);
          if !ok {
            crtc.fb := oldFb;
            return;
          }
        }
        PrunedUsesLess(Now(), Unplugged(), crtc);
        DisableUnused();
        ok := true;
      } else if fbChanged {
        crtc.fb := q.fb;
        ok := ModeSetBase(crtc, q.x, q.y, flipWorks);
        if !ok {
          crtc.fb := oldFb;
        }
      } else {
        ok := true;
      }
    }

    /** Gives the routing back after a failed commit and shows the old picture again. */
    method RollBack(crtc: Crtc, save: Picture, modeChanged: bool, fbChanged: bool)
      requires Lists() && Fixed(Next()) && crtc in crtcs && save == PictureOf(crtc)
      modifies connectors`encoder, connectors`newEncoder, encoders`crtc, encoders`newCrtc, crtcs
      ensures Now() == old(Next()) && Next() == Empty(Now()) && Pictures() == old(Pictures())
      ensures forall r :: r in crtcs ==> r.enabled == old(r.enabled) || (r == crtc && r.enabled == InUse(Now(), r))
    {
      hide Fixed, InUse, Route, Distinct;
      SwapChanged(true, true);
      EmptyAgain(old(Now()), Now());
      var again: bool := *;
      if modeChanged {
        var _ := SetMode(crtc, save.mode, save.x, save.y, again);
      } else if fbChanged {
        var _ := ModeSetBase(crtc, save.x, save.y, again);
      }
    }

    /** The tests in front of the staging. */
    method NeedsChange(q: Request) returns (modeChanged: bool, fbChanged: bool)
      requires q.crtc != null && q.mode.Some? && q.fb.Some?
      ensures fbChanged == FbChanges(q, PictureOf(q.crtc))
      ensures modeChanged <==> (q.crtc.fb != q.fb && q.crtc.fb == None) || q.mode.value != q.crtc.mode
    {
      var crtc := q.crtc;
      modeChanged, fbChanged := false, false;
      if crtc.fb != q.fb {
        if crtc.fb == None {
          modeChanged := true;
        } else {
          fbChanged := true;
        }
      }
      if q.x != crtc.x || q.y != crtc.y {
        fbChanged := true;
      }
      if q.mode.value != crtc.mode {
        modeChanged := true;
      }
    }

    /** The transaction proper. modeWorks and flipWorks say what the hardware would answer. */
    method Configure(q: Request, modeWorks: bool, flipWorks: bool) returns (ret: int)
      requires Valid()
      requires q.crtc != null && q.crtc in crtcs && q.mode.Some? && q.fb.Some?
      modifies connectors`encoder, connectors`newEncoder, encoders`crtc, encoders`newCrtc, crtcs
      ensures Valid() && Fixed(Staged(old(Now()), q))
      ensures ret == 0 || (ret == -EINVAL && Now() == old(Now()) && Pictures() == old(Pictures()))
      ensures ret == 0 || forall r :: r in crtcs ==>
                r.enabled == old(r.enabled) || (r == q.crtc && r.enabled == InUse(Now(), r))
      ensures ret == 0 <==> Accepted(old(Now()), q, old(PictureOf(q.crtc)), modeWorks, flipWorks)
      ensures ret == 0 ==>
                var l, change := old(Now()), ModeChanges(old(Now()), q, old(PictureOf(q.crtc)));
                && Now() == (if change then Pruned(Staged(l, q), Unplugged()) else Staged(l, q))
                && forall r :: r in crtcs ==>
                     if change && !InUse(Now(), r) then r.fb == None
                     else PictureOf(r) == if r == q.crtc then Picture(q.fb, q.mode.value, q.x, q.y)
                                          else old(PictureOf(r))
    {
      hide Fixed, InUse, Pruned, Staged, Route, Distinct, LinkChanges, Refused, Encoders, Crtcs, NewEncoders, NewCrtcs, Empty;
      ghost var l := Now();
      StagedIsFixed(l, q);
      var save := PictureOf(q.crtc);
      var modeChanged, fbChanged := NeedsChange(q);
      var ok, routeChanged := Stage(q);
      modeChanged := modeChanged || routeChanged;
      if !ok {
        SwapChanged(false, true);
        return -EINVAL;
      }
      assert modeChanged == ModeChanges(l, q, PictureOf(q.crtc));
      SwapChanged(true, false);
      assert Now() == Staged(l, q) && Next() == l;
      ok := Commit(q, modeChanged, fbChanged, modeWorks, flipWorks);
      if ok {
        SwapChanged(false, true);
        ret := 0;
      } else {
        assert Pictures()[q.crtc] == PictureOf(q.crtc) && old(Pictures())[q.crtc] == save;
        RollBack(q.crtc, save, modeChanged, fbChanged);
        ret := -EINVAL;
      }
    }

    /** The empty staging of a device does not depend on the routing. */
    lemma EmptyAgain(l: Links, m: Links)
      requires l.encoderOf.Keys == m.encoderOf.Keys && l.crtcOf.Keys == m.crtcOf.Keys
      ensures Empty(l) == Empty(m)
    {
    }

    /** The CRTC that feeds a connector. */
    function RouteOf(c: Connector): Crtc?
      reads c`encoder, (if c.encoder == null then {} else {c.encoder})`crtc
    {
      if c.encoder == null then null else c.encoder.crtc
    }

    lemma RoutesAre()
      requires Fixed(Now())
      ensures Now().encoderOf.Keys == set c | c in connectors
      ensures forall c :: c in connectors ==> Route(Now(), c) == RouteOf(c)
      ensures forall c :: c in connectors ==> Now().encoderOf[c] == c.encoder && c.newEncoder == NewEncoders()[c]
      ensures forall e :: e in encoders ==> e in Now().crtcOf && Now().crtcOf[e] == e.crtc && e.newCrtc == NewCrtcs()[e]
    {
      forall c | c in connectors ensures Route(Now(), c) == RouteOf(c) {
        OneConnectorRoute(c);
      }
    }

    lemma StillEmpty(l: Links, o: Outcome)
      requires Fixed(l) && (o.Configured? ==> o.q.crtc != null)
      ensures Empty(AfterCall(l, o)) == Empty(l)
    {
    }

    /** Switching a CRTC off, in terms of the fields. */
    method SwitchOff(crtc: Crtc)
      requires Valid() && crtc in crtcs
      modifies connectors`encoder, encoders`crtc, crtcs`fb, crtcs`x, crtcs`y, crtcs`enabled
      ensures Valid() && Now() == AfterCall(old(Now()), SwitchedOffCrtc(crtc, Unplugged()))
      ensures old(Possible(Now())) ==> Possible(Now())
      ensures forall c :: c in connectors ==>
                RouteOf(c) == if c.disconnected || old(RouteOf(c)) == crtc then null else old(RouteOf(c))
      ensures forall r :: r in crtcs ==>
                if exists c :: c in connectors && RouteOf(c) == r then PictureOf(r) == old(PictureOf(r)) else r.fb == None
    {
      ghost var l, shown, o := Now(), Pictures(), SwitchedOffCrtc(crtc, Unplugged());
      hide Fixed, Possible, InUse, Pruned, Staged, Decoupled, Route, Refused, Accepted, ModeChanges, FbChanges, DistinctOutputs,
        Listed, Distinct, Encoders, Crtcs, NewEncoders, NewCrtcs, Pictures, Unplugged, RouteOf, Empty;
      FixedRoutes();
      PicturesAre();
      CallKeepsPossible(l, o);
      StillEmpty(l, o);
      DisableCrtc(crtc);
      CallKeepsValid(l, o);
      FixedRoutes();
      Leads(l, o);
      UnpluggedMeans();
      StillShows(shown);
    }

    /** Configuring a CRTC, in terms of the fields. */
    method Reconfigure(q: Request, modeWorks: bool, flipWorks: bool, ghost due: bool) returns (ret: int)
      requires Valid() && q.crtc != null && q.crtc in crtcs && q.mode.Some? && q.fb.Some?
      requires forall k :: 0 <= k < |q.connectors| && q.connectors[k] != null ==> q.connectors[k] in connectors
      requires due == (PictureOf(q.crtc).fb == None || q.mode.value != PictureOf(q.crtc).mode ||
                       exists c :: c in connectors && (if c in q.connectors then RouteOf(c) != q.crtc else RouteOf(c) == q.crtc))
      modifies connectors`encoder, connectors`newEncoder, encoders`crtc, encoders`newCrtc, crtcs
      ensures Valid() && Now() == AfterCall(old(Now()), if ret == 0 then Configured(q, due, Unplugged()) else Failed)
      ensures old(Possible(Now())) ==> Possible(Now())
      ensures ret == 0 || ret == -EINVAL
      ensures ret == 0 <==>
                && (forall c :: c in connectors ==>
                      if c in q.connectors then q.crtc in c.best.possible
                      else old(RouteOf(c)) == null || old(RouteOf(c)) == q.crtc || old(RouteOf(c)) in c.best.possible)
                && (due && (exists c :: c in connectors && c in q.connectors) ==> modeWorks)
                && (!due && (q.fb != old(PictureOf(q.crtc)).fb || q.x != old(PictureOf(q.crtc)).x || q.y != old(PictureOf(q.crtc)).y)
                    ==> flipWorks)
      ensures ret == 0 ==> forall c :: c in connectors ==>
                RouteOf(c) == if due && c.disconnected then null
                              else if c in q.connectors then q.crtc
                              else if old(RouteOf(c)) == q.crtc then null
                              else old(RouteOf(c))
      ensures ret == 0 ==> forall r :: r in crtcs ==>
                if due && !exists c :: c in connectors && RouteOf(c) == r then r.fb == None
                else if r == q.crtc then r.fb == q.fb && r.mode == q.mode.value && r.x == q.x && r.y == q.y
                else PictureOf(r) == old(PictureOf(r))
      ensures ret != 0 ==>
                && (forall c :: c in connectors ==> c.encoder == old(c.encoder))
                && (forall e :: e in encoders ==> e.crtc == old(e.crtc))
                && (forall r :: r in crtcs ==> PictureOf(r) == old(PictureOf(r)))
                && (forall r :: r in crtcs ==>
                      || r.enabled == old(r.enabled)
                      || (r == q.crtc && (r.enabled <==> exists c :: c in connectors && RouteOf(c) == r)))
    {
      ghost var l, shown := Now(), Pictures();
      hide Fixed, Possible, InUse, Pruned, Staged, Decoupled, Route, Refused, Accepted, ModeChanges, FbChanges, DistinctOutputs,
        Listed, Distinct, Encoders, Crtcs, NewEncoders, NewCrtcs, Pictures, Unplugged, RouteOf, Empty;
      FixedRoutes();
      AllListed(l, q);
      PicturesAre();
      AcceptedHere(q, modeWorks, flipWorks, due);
      ret := Configure(q, modeWorks, flipWorks);
      ghost var o := if ret == 0 then Configured(q, due, Unplugged()) else Failed;
      AcceptedIsNotRefused(l, q, shown[q.crtc], modeWorks, flipWorks);
      CallKeepsPossible(l, o);
      FixedRoutes();
      PicturesAre();
      UnpluggedMeans();
      Leads(l, o);
      if ret == 0 {
        Shows(shown, q.crtc, Picture(q.fb, q.mode.value, q.x, q.y), due);
      } else {
        InUseMeans(q.crtc);
      }
    }

    /** The call itself. */
    method SetConfig(request: Request, modeWorks: bool, flipWorks: bool) returns (ret: int, ghost outcome: Outcome)
      requires Valid()
      requires request.crtc != null ==> request.crtc in crtcs
      requires forall k :: 0 <= k < |request.connectors| && request.connectors[k] != null ==> request.connectors[k] in connectors
      modifies connectors`encoder, connectors`newEncoder, encoders`crtc, encoders`newCrtc, crtcs
      ensures Valid()
      ensures outcome.Configured? ==> outcome.q.crtc != null
      ensures Now() == AfterCall(old(Now()), outcome) && (ret != 0 <==> outcome.Failed?)
      ensures old(Possible(Now())) ==> Possible(Now())
      // nothing stays staged
      ensures (forall c :: c in connectors ==> c.newEncoder == null) && (forall e :: e in encoders ==> e.newCrtc == null)
      ensures ret == 0 || ret == -EINVAL
      ensures request.crtc == null ==> ret != 0
      // switching off succeeds
      ensures request.crtc != null && (request.mode == None || request.fb == None) ==>
                && ret == 0
                && (forall c :: c in connectors ==>
                      RouteOf(c) == if c.disconnected || old(RouteOf(c)) == request.crtc then null else old(RouteOf(c)))
                && (forall r :: r in crtcs ==>
                      if exists c :: c in connectors && RouteOf(c) == r then PictureOf(r) == old(PictureOf(r)) else r.fb == None)
      // when configuring succeeds, and what it does
      ensures request.crtc != null && request.mode.Some? && request.fb.Some? ==>
                var p := old(PictureOf(request.crtc));
                var due := p.fb == None || request.mode.value != p.mode ||
                           exists c :: c in connectors && (if c in request.connectors then old(RouteOf(c)) != request.crtc
                                                           else old(RouteOf(c)) == request.crtc);
                && (ret == 0 <==>
                      && (forall c :: c in connectors ==>
                            if c in request.connectors then request.crtc in c.best.possible
                            else old(RouteOf(c)) == null || old(RouteOf(c)) == request.crtc || old(RouteOf(c)) in c.best.possible)
                      && (due && (exists c :: c in connectors && c in request.connectors) ==> modeWorks)
                      && (!due && (request.fb != p.fb || request.x != p.x || request.y != p.y) ==> flipWorks))
                && (ret == 0 ==> forall c :: c in connectors ==>
                      RouteOf(c) == if due && c.disconnected then null
                                    else if c in request.connectors then request.crtc
                                    else if old(RouteOf(c)) == request.crtc then null
                                    else old(RouteOf(c)))
                && (ret == 0 ==> forall r :: r in crtcs ==>
                      if due && !exists c :: c in connectors && RouteOf(c) == r then r.fb == None
                      else if r == request.crtc
                           then r.fb == request.fb && r.mode == request.mode.value && r.x == request.x && r.y == request.y
                           else PictureOf(r) == old(PictureOf(r)))
      // failing changes nothing
      ensures ret != 0 ==>
                && (forall c :: c in connectors ==> c.encoder == old(c.encoder))
                && (forall e :: e in encoders ==> e.crtc == old(e.crtc))
                && (forall r :: r in crtcs ==> PictureOf(r) == old(PictureOf(r)))
                && (forall r :: r in crtcs ==>
                      || r.enabled == old(r.enabled)
                      || (r == request.crtc && (r.enabled <==> exists c :: c in connectors && RouteOf(c) == r)))
    {
      hide Fixed, Possible, InUse, Pruned, Staged, Decoupled, Route, Refused, Valid, Now, Next, Accepted, ModeChanges, FbChanges, DistinctOutputs,
        Listed, Distinct, Encoders, Crtcs, NewEncoders, NewCrtcs, Pictures, Unplugged, RouteOf, Empty;
      NothingIsStaged();
      outcome := Failed;
      if request.crtc == null {
        return -EINVAL, outcome;
      }
      var q := request;
      if q.mode == None {
        q := q.(fb := None);
      }
      if q.fb == None {
        ghost var unplugged := Unplugged();
        SwitchOff(q.crtc);
        NothingIsStaged();
        return 0, SwitchedOffCrtc(q.crtc, unplugged);
      }
      ghost var due := PictureOf(q.crtc).fb == None || q.mode.value != PictureOf(q.crtc).mode ||
        exists c :: c in connectors && (if c in q.connectors then RouteOf(c) != q.crtc else RouteOf(c) == q.crtc);
      ret := Reconfigure(q, modeWorks, flipWorks, due);
      NothingIsStaged();
      if ret == 0 {
        outcome := Configured(q, due, Unplugged());
      }
    }

    /** When the request succeeds and whether it needs a full mode set, in terms of the fields. */
    lemma AcceptedHere(q: Request, modeWorks: bool, flipWorks: bool, due: bool)
      requires Valid() && q.crtc != null && q.mode.Some? && q.fb.Some?
      requires forall k :: 0 <= k < |q.connectors| && q.connectors[k] != null ==> q.connectors[k] in connectors
      requires due == (PictureOf(q.crtc).fb == None || q.mode.value != PictureOf(q.crtc).mode ||
                       exists c :: c in connectors && (if c in q.connectors then RouteOf(c) != q.crtc else RouteOf(c) == q.crtc))
      ensures Fixed(Staged(Now(), q)) && ModeChanges(Now(), q, PictureOf(q.crtc)) == due
      ensures Accepted(Now(), q, PictureOf(q.crtc), modeWorks, flipWorks)
              <==> && (forall c :: c in connectors ==>
                         if c in q.connectors then q.crtc in c.best.possible
                         else RouteOf(c) == null || RouteOf(c) == q.crtc || RouteOf(c) in c.best.possible)
                   && (due && (exists c :: c in connectors && c in q.connectors) ==> modeWorks)
                   && (!due && (q.fb != PictureOf(q.crtc).fb || q.x != PictureOf(q.crtc).x || q.y != PictureOf(q.crtc).y) ==> flipWorks)
    {
      RoutesAre();
      AllListed(Now(), q);
      AcceptedIff(Now(), q, PictureOf(q.crtc), modeWorks, flipWorks);
      ModeChangesIff(Now(), q, PictureOf(q.crtc));
      hide Fixed, Route, RouteOf, Accepted, ModeChanges, Now, Staged, DistinctOutputs, Listed;
    }

    lemma FixedRoutes()
      requires Valid()
      ensures Fixed(Now()) && Now().encoderOf.Keys == (set c | c in connectors) && Now().crtcOf.Keys == (set e | e in encoders)
      ensures forall c :: c in connectors ==> Route(Now(), c) == RouteOf(c) && Now().encoderOf[c] == c.encoder
      ensures forall e :: e in encoders ==> Now().crtcOf[e] == e.crtc
    {
      RoutesAre();
    }

    lemma CallKeepsPossible(l: Links, o: Outcome)
      requires Fixed(l) && (o.Configured? ==> o.q.crtc != null && !Refused(l, o.q))
      ensures Possible(l) ==> Possible(AfterCall(l, o))
    {
    }

    lemma CallKeepsValid(l: Links, o: Outcome)
      requires Fixed(l) && (o.Configured? ==> o.q.crtc != null && !Refused(l, o.q))
      requires Lists() && DistinctOutputs(set c | c in connectors) && Now() == AfterCall(l, o) && Next() == Empty(l)
      ensures Valid()
    {
      StillEmpty(l, o);
    }

    lemma AcceptedIsNotRefused(l: Links, q: Request, p: Picture, modeWorks: bool, flipWorks: bool)
      requires Fixed(l) && Fixed(Staged(l, q)) && q.crtc != null
      ensures Accepted(l, q, p, modeWorks, flipWorks) ==> !Refused(l, q)
    {
    }

    /** Where the call has left the routes, in terms of the fields; l was in force before. */
    lemma Leads(l: Links, o: Outcome)
      requires Valid() && Fixed(l) && (o.Configured? ==> o.q.crtc != null && Listed(l, o.q))
      requires Now() == AfterCall(l, o)
      ensures forall c :: c in connectors ==> c in l.encoderOf
      ensures o.Configured? ==> forall c :: c in connectors ==>
                RouteOf(c) == if o.full && c in o.unplugged then null
                              else if c in o.q.connectors then o.q.crtc
                              else if Route(l, c) == o.q.crtc then null
                              else Route(l, c)
      ensures o.SwitchedOffCrtc? ==> forall c :: c in connectors ==>
                RouteOf(c) == if c in o.unplugged || Route(l, c) == o.crtc then null else Route(l, c)
      ensures o.Failed? ==> Now() == l
    {
      RoutesAre();
      hide Fixed, Route, Pruned, Staged, Decoupled, DistinctOutputs, Distinct;
      forall c | c in connectors ensures Route(Now(), c) == OutcomeRoute(l, o, c) {
        OutcomeRouteIs(l, o, c);
      }
    }

    lemma UnpluggedMeans()
      ensures forall c :: c in connectors ==> (c in Unplugged() <==> c.disconnected)
    {
    }

    /** What the CRTCs show, in terms of the fields; shown is what they showed before. */
    lemma Shows(shown: map<Crtc, Picture>, crtc: Crtc, picture: Picture, full: bool)
      requires Fixed(Now()) && forall r :: r in crtcs ==> r in shown
      requires forall r :: r in crtcs ==>
                 if full && !InUse(Now(), r) then r.fb == None
                 else PictureOf(r) == if r == crtc then picture else shown[r]
      ensures forall r :: r in crtcs ==>
                if full && !exists c :: c in connectors && RouteOf(c) == r then r.fb == None
                else PictureOf(r) == if r == crtc then picture else shown[r]
    {
      forall r | r in crtcs ensures InUse(Now(), r) <==> exists c :: c in connectors && RouteOf(c) == r {
        InUseMeans(r);
      }
    }

    lemma StillShows(shown: map<Crtc, Picture>)
      requires Fixed(Now()) && forall r :: r in crtcs ==> r in shown
      requires forall r :: r in crtcs ==> if InUse(Now(), r) then PictureOf(r) == shown[r] else r.fb == None
      ensures forall r :: r in crtcs ==>
                if exists c :: c in connectors && RouteOf(c) == r then PictureOf(r) == shown[r] else r.fb == None
    {
      forall r | r in crtcs ensures InUse(Now(), r) <==> exists c :: c in connectors && RouteOf(c) == r {
        InUseMeans(r);
      }
    }

    lemma PicturesAre()
      ensures forall r :: r in crtcs ==> r in Pictures() && Pictures()[r] == PictureOf(r)
    {
    }

    lemma NothingIsStaged()
      requires Valid()
      ensures (forall c :: c in connectors ==> c.newEncoder == null) && (forall e :: e in encoders ==> e.newCrtc == null)
    {
      assert forall c :: c in connectors ==> Next().encoderOf[c] == c.newEncoder;
      assert forall e :: e in encoders ==> Next().crtcOf[e] == e.newCrtc;
    }

    lemma InUseMeans(r: Crtc)
      requires Fixed(Now())
      ensures InUse(Now(), r) <==> exists c :: c in connectors && RouteOf(c) == r
    {
      RoutesAre();
    }

    lemma AllListed(l: Links, q: Request)
      requires l == Now()
      requires forall k :: 0 <= k < |q.connectors| && q.connectors[k] != null ==> q.connectors[k] in connectors
      ensures Listed(l, q)
    {
    }
  }

  // Building the lists.

  lemma LastBitIsTaken(x: bv32)
    requires x != 0
    ensures LastBit(x) != 0 && OneBit(LastBit(x)) && Has(x, LastBit(x))
    ensures Off(x, LastBit(x)) < x
  {
    LastBitIsOneBit(x);
    hide Common, Has, Off, OneBit;
    LastBitExists(x);
    BitInside(!(x - 1), x);
    TakenIsLess(x, LastBit(x));
  }

  lemma LastBitIsOneBit(x: bv32)
    requires x != 0
    ensures OneBit(LastBit(x))
  {
    hide OneBit;
    LastBitIsOne(x);
  }

  lemma LastBitExists(x: bv32)
    requires x != 0
    ensures LastBit(x) != 0
  {
    assert !(x - 1) == !x + 1;
  }

  lemma BitInside(y: bv32, x: bv32)
    ensures Has(x, Common(y, x))
  {
  }

  lemma TakenIsLess(x: bv32, bit: bv32)
    requires bit != 0 && Has(x, bit)
    ensures Off(x, bit) < x
  {
  }

  lemma TakenStaysOut(rest: bv32, bit: bv32, used: bv32)
    requires Has(rest, bit)
    ensures !Meets(bit, Off(rest, bit))
    ensures !Meets(used, rest) ==> !Meets(used, bit) && !Meets(bit, used) && !Meets(used, Off(rest, bit))
  {
    if !Meets(used, rest) {
      assert used & bit == (used & rest) & bit;
      assert used & (rest & !bit) == (used & rest) & !bit;
    }
  }

  /** Connectors and encoders in pairs, nothing routed yet. */
  ghost predicate Paired(connectors: seq<Connector>, encoders: seq<Encoder>, crtcMask: bv32 -> set<Crtc>)
    reads connectors, encoders
  {
    && |connectors| == |encoders| && Distinct(connectors) && Distinct(encoders)
    && forall k :: 0 <= k < |connectors| ==>
         && connectors[k].encoder == null && connectors[k].newEncoder == null
         && encoders[k].crtc == null && encoders[k].newCrtc == null
         && connectors[k].best == encoders[k] && encoders[k].possible == crtcMask(connectors[k].outputType)
  }

  lemma SameEncoder(connectors: seq<Connector>, encoders: seq<Encoder>, crtcMask: bv32 -> set<Crtc>, c: Connector, d: Connector)
    requires Paired(connectors, encoders, crtcMask) && c in connectors && d in connectors && c.best == d.best
    ensures c == d
  {
    var i :| 0 <= i < |connectors| && connectors[i] == c;
    var j :| 0 <= j < |connectors| && connectors[j] == d;
    assert encoders[i] == encoders[j];
    assert i == j;
  }

  /** One connector and one encoder for each supported output. */
  method OutputInit(support: bv32, crtcMask: bv32 -> set<Crtc>)
    returns (connectors: seq<Connector>, encoders: seq<Encoder>)
    ensures fresh(connectors) && fresh(encoders)
    ensures Paired(connectors, encoders, crtcMask)
    ensures DistinctOutputs(set c | c in connectors)
    // one for every bit of the mask, and no others
    ensures forall b :: OneBit(b) ==> (Has(support, b) <==> exists c :: c in connectors && c.outputType == b)
    ensures forall c :: c in connectors ==> OneBit(c.outputType) && Has(support, c.outputType)
  {
    hide Built, OneBit, Has;
    connectors, encoders := [], [];
    var rest := support;
    NothingBuilt(connectors, encoders, crtcMask, support);
    while rest != 0
      invariant fresh(connectors) && fresh(encoders)
      invariant Built(connectors, encoders, crtcMask, rest, support)
      decreases rest
    {
      var connector: Connector, encoder: Encoder;
      connector, encoder, rest := AddOutput(connectors, encoders, crtcMask, rest, support);
      connectors, encoders := connectors + [connector], encoders + [encoder];
    }
    AllBuilt(connectors, encoders, crtcMask, support);
  }

  /** The outputs so far, and the bits that are left. */
  ghost predicate Built(connectors: seq<Connector>, encoders: seq<Encoder>, crtcMask: bv32 -> set<Crtc>, rest: bv32, support: bv32)
    reads connectors, encoders
  {
    && Paired(connectors, encoders, crtcMask)
    && DistinctOutputs(set c | c in connectors)
    && (forall c :: c in connectors ==> !Meets(c.outputType, rest))
    && Covers(Types(connectors), rest, support)
  }

  /** One output: a connector with an encoder of its own for the lowest bit that is left. */
  method AddOutput(connectors: seq<Connector>, encoders: seq<Encoder>, crtcMask: bv32 -> set<Crtc>, rest: bv32, support: bv32)
    returns (connector: Connector, encoder: Encoder, left: bv32)
    requires rest != 0 && Built(connectors, encoders, crtcMask, rest, support)
    ensures fresh(connector) && fresh(encoder) && left < rest
    ensures Built(connectors + [connector], encoders + [encoder], crtcMask, left, support)
  {
    hide LastBit, Meets, Off, Has, OneBit, Covers, Types, Paired, DistinctOutputs;
    var output := LastBit(rest);
    LastBitIsTaken(rest);
    encoder := new Encoder(crtcMask(output));
    connector := new Connector(output, encoder);
    left := Off(rest, output);
    BuiltOneMore(connectors, encoders, crtcMask, rest, support, connector, encoder);
  }

  lemma BuiltOneMore(connectors: seq<Connector>, encoders: seq<Encoder>, crtcMask: bv32 -> set<Crtc>, rest: bv32,
                     support: bv32, connector: Connector, encoder: Encoder)
    requires rest != 0 && Built(connectors, encoders, crtcMask, rest, support)
    requires connector !in connectors && encoder !in encoders
    requires connector.outputType == LastBit(rest) && connector.best == encoder && encoder.possible == crtcMask(LastBit(rest))
    requires connector.encoder == null && connector.newEncoder == null && encoder.crtc == null && encoder.newCrtc == null
    ensures Built(connectors + [connector], encoders + [encoder], crtcMask, Off(rest, LastBit(rest)), support)
  {
    hide LastBit, Meets, Off, Has, OneBit, Covers, Types, DistinctOutputs;
    var output := LastBit(rest);
    LastBitIsTaken(rest);
    forall c | c in connectors
      ensures !Meets(c.outputType, output) && !Meets(output, c.outputType) && !Meets(c.outputType, Off(rest, output))
    {
      TakenStaysOut(rest, output, c.outputType);
    }
    TakenStaysOut(rest, output, 0);
    CoversOneMore(Types(connectors), rest, support, output);
    TypesOneMore(connectors, connector);
    DistinctOneMore(connectors, connector);
  }

  lemma NothingBuilt(connectors: seq<Connector>, encoders: seq<Encoder>, crtcMask: bv32 -> set<Crtc>, support: bv32)
    requires connectors == [] && encoders == []
    ensures Built(connectors, encoders, crtcMask, support, support)
  {
    NothingCovered(support);
  }

  lemma AllBuilt(connectors: seq<Connector>, encoders: seq<Encoder>, crtcMask: bv32 -> set<Crtc>, support: bv32)
    requires Built(connectors, encoders, crtcMask, 0, support)
    ensures Paired(connectors, encoders, crtcMask) && DistinctOutputs(set c | c in connectors)
    ensures forall b :: OneBit(b) ==> (Has(support, b) <==> exists c :: c in connectors && c.outputType == b)
    ensures forall c :: c in connectors ==> OneBit(c.outputType) && Has(support, c.outputType)
  {
    hide Has, OneBit, Meets, Covers, Types;
    AllCovered(connectors, support);
  }

  lemma DistinctOneMore(cs: seq<Connector>, c: Connector)
    requires DistinctOutputs(set d | d in cs) && c.outputType != 0
    requires forall d :: d in cs ==> !Meets(c.outputType, d.outputType) && !Meets(d.outputType, c.outputType)
    ensures DistinctOutputs(set d | d in cs + [c])
  {
    hide Meets;
  }

  ghost function Types(cs: seq<Connector>): set<bv32> {
    set c | c in cs :: c.outputType
  }

  /** The single bits of the support mask are the bits made so far and those that are left. */
  ghost predicate Covers(made: set<bv32>, rest: bv32, support: bv32) {
    && (forall b :: b in made ==> OneBit(b))
    && forall b :: OneBit(b) ==> (Has(support, b) <==> Has(rest, b) || b in made)
  }

  lemma NothingCovered(support: bv32)
    ensures Covers(Types([]), support, support)
  {
  }

  lemma TypesOneMore(cs: seq<Connector>, c: Connector)
    ensures Types(cs + [c]) == Types(cs) + {c.outputType}
  {
    forall b ensures b in Types(cs + [c]) <==> b in Types(cs) || b == c.outputType {
      if d :| d in cs && d.outputType == b { assert d in cs + [c]; }
      assert c in cs + [c];
    }
  }

  lemma CoversOneMore(made: set<bv32>, rest: bv32, support: bv32, output: bv32)
    requires Covers(made, rest, support) && OneBit(output) && Has(rest, output)
    ensures Covers(made + {output}, Off(rest, output), support)
  {
    hide Has, OneBit, Off;
    forall b | OneBit(b) ensures Has(Off(rest, output), b) == (Has(rest, b) && b != output) {
      OneLess(rest, output, b);
    }
  }

  lemma AllCovered(cs: seq<Connector>, support: bv32)
    requires Covers(Types(cs), 0, support)
    ensures forall b :: OneBit(b) ==> (Has(support, b) <==> exists c :: c in cs && c.outputType == b)
    ensures forall c :: c in cs ==> OneBit(c.outputType) && Has(support, c.outputType)
  {
    hide Has, OneBit;
    forall b | OneBit(b) ensures !Has(0, b) {
      NothingIsNoBit(b);
    }
    forall c | c in cs ensures c.outputType in Types(cs) {
    }
  }

  lemma OneLess(rest: bv32, output: bv32, b: bv32)
    requires OneBit(b) && OneBit(output) && Has(rest, output)
    ensures Has(Off(rest, output), b) == (Has(rest, b) && b != output)
  {
    OffBit(rest, output, b);
    SingleBits(output, b);
  }

  lemma SingleBits(x: bv32, b: bv32)
    requires OneBit(x) && OneBit(b)
    ensures Has(x, b) <==> x == b
  {
  }

  predicate Gone(e: Encoder?, seen: seq<Encoder>, crtcOf: map<Encoder, Crtc?>, crtc: Crtc) {
    e != null && e in seen && e in crtcOf && crtcOf[e] == crtc
  }

  lemma GoneOneMore(es: seq<Encoder>, k: nat, crtcOf: map<Encoder, Crtc?>, crtc: Crtc)
    requires k < |es| && es[k] in crtcOf
    ensures forall e :: Gone(e, es[..k + 1], crtcOf, crtc)
                   <==> Gone(e, es[..k], crtcOf, crtc) || (e == es[k] && crtcOf[es[k]] == crtc)
  {
    assert es[..k + 1] == es[..k] + [es[k]];
    forall e: Encoder?
      ensures Gone(e, es[..k + 1], crtcOf, crtc)
              <==> Gone(e, es[..k], crtcOf, crtc) || (e == es[k] && crtcOf[es[k]] == crtc)
    {
      if e != null {
        var f: Encoder := e;
        assert f in es[..k + 1] <==> f in es[..k] || f == es[k];
      }
    }
  }
}
