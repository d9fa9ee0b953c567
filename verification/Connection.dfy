/**
 The life of a connection: handles are acquired stage by stage, and given back from whatever stage the
 construction reached. Some handles are owned, others are lent by a session pool or an XA manager.
 */
module Connection {

  type Handle = nat

  const NULL: Handle := 0

  /** How a connection gets its handles. */
  datatype Kind = Regular | ConnectionPool | SessionPool | XA

  /** Server, session and context handles are allocated by the connection itself. */
  predicate Allocates(k: Kind) {
    k == Regular || k == ConnectionPool
  }

  datatype Stage = Created | Allocated | Attached | Logged

  /** The steps of a connection's life that OCI can refuse. */
  datatype Step =
    | XaEnvironment | AllocError | AllocServer | ServerAttach
    | AllocSession | AllocContext | Credentials | SessionBegin | SessionStart
    | SessionGet | LentContext | LentServer | LentSession | SessionTag
    | SessionEnd | SessionRelease | ServerDetach

  /** The error handle is allocated; an XA connection needs the environment of the transaction manager first. */
  predicate Allocating(k: Kind, works: Step -> bool) {
    works(AllocError) && (k == XA ==> works(XaEnvironment))
  }

  /** A server is attached to. */
  predicate Attaching(k: Kind, works: Step -> bool) {
    Allocates(k) && Allocating(k, works) && works(AllocServer) && works(ServerAttach)
  }

  /** A session is begun. */
  predicate Beginning(k: Kind, works: Step -> bool) {
    Attaching(k, works) && works(AllocSession) && works(AllocContext) && works(Credentials) && works(SessionBegin)
  }

  /** A session is taken from a pool. */
  predicate Taking(k: Kind, works: Step -> bool) {
    k == SessionPool && Allocating(k, works) && works(SessionGet)
  }

  /** A connection comes about. */
  predicate Connects(k: Kind, works: Step -> bool) {
    if Allocates(k) then Beginning(k, works) && works(SessionStart)
    else if k == XA then Allocating(k, works) && works(LentContext) && works(LentServer) && works(LentSession)
    else Taking(k, works) && works(LentServer) && works(LentSession) && works(SessionTag)
  }

  /** Whether a call of the teardown was made, and how it ended. */
  datatype Outcome = NotReached | Succeeded | Failed

  /** The steps that make a connection of a kind. */
  function StepsOf(k: Kind): set<Step> {
    match k
    case Regular => {AllocError, AllocServer, ServerAttach, AllocSession, AllocContext, Credentials, SessionBegin, SessionStart}
    case ConnectionPool => {AllocError, AllocServer, ServerAttach, AllocSession, AllocContext, Credentials, SessionBegin, SessionStart}
    case SessionPool => {AllocError, SessionGet, LentServer, LentSession, SessionTag}
    case XA => {XaEnvironment, AllocError, LentContext, LentServer, LentSession}
  }

  /** A connection comes about if and only if none of these steps is refused; no other step matters. */
  lemma ConnectsIff(k: Kind, works: Step -> bool)
    ensures Connects(k, works) <==> forall s :: s in StepsOf(k) ==> works(s)
    ensures Beginning(k, works) <==> (k == Regular || k == ConnectionPool) && forall s :: s in StepsOf(k) && s != SessionStart ==> works(s)
    ensures Taking(k, works) <==> k == SessionPool && works(AllocError) && works(SessionGet)
    ensures Attaching(k, works) <==> (k == Regular || k == ConnectionPool) && works(AllocError) && works(AllocServer) && works(ServerAttach)
  {
    var steps := StepsOf(k);
    assert k == XA ==> XaEnvironment in steps;
    assert AllocError in steps;
    if Allocates(k) {
      assert AllocServer in steps && ServerAttach in steps && AllocSession in steps && AllocContext in steps;
      assert Credentials in steps && SessionBegin in steps && SessionStart in steps;
    } else if k == SessionPool {
      assert SessionGet in steps && LentServer in steps && LentSession in steps && SessionTag in steps;
    } else {
      assert LentContext in steps && LentServer in steps && LentSession in steps;
    }
  }

  /** A handle, or none. */
  function One(some: bool, h: Handle): set<Handle> {
    if some then {h} else {}
  }

  predicate Below(s: set<Handle>, next: Handle) {
    forall h :: h in s ==> 0 < h < next
  }

  /** The handles, servers, sessions and pooled contexts there are. */
  datatype Given = Given(live: set<Handle>, attached: set<Handle>, sessions: set<Handle>, pooled: set<Handle>)

  /** What OCI has given out. Whether a call succeeds is an input of it. */
  class Oci {
    var next: nat
    var live: set<Handle>             // allocated and not freed
    var lent: set<Handle>             // lent by a pool or an XA manager
    var attached: set<Handle>         // servers attached to
    var sessions: set<Handle>         // sessions begun and not ended
    var pooled: set<Handle>           // contexts taken from a session pool and not given back

    constructor ()
      ensures Valid() && live == lent == attached == sessions == pooled == {}
    {
      next, live, lent, attached, sessions, pooled := 1, {}, {}, {}, {}, {};
    }

    ghost predicate Valid()
      reads this
    {
      && next > 0 && live !! lent
      && Below(live, next) && Below(lent, next) && Below(attached, next) && Below(sessions, next) && Below(pooled, next)
    }

    ghost function State(): Given
      reads this
    {
      Given(live, attached, sessions, pooled)
    }

    method Alloc(works: bool) returns (h: Handle)
      requires Valid()
      modifies this`next, this`live
      ensures Valid() && (h != NULL <==> works)
      ensures h == NULL ==> live == old(live)
      ensures h != NULL ==> h !in old(live) + lent + attached + sessions + pooled && live == old(live) + {h}
    {
      if !works { return NULL; }
      h, next, live := next, next + 1, live + {next};
    }

    /** Only a handle that was allocated, and is not freed yet, may be freed. */
    method Free(h: Handle)
      requires Valid() && h in live
      modifies this`live
      ensures Valid() && live == old(live) - {h}
    {
      live := live - {h};
    }

    /** A handle that belongs to somebody else. */
    method Lend(works: bool) returns (h: Handle)
      requires Valid()
      modifies this`next, this`lent
      ensures Valid() && (h != NULL <==> works)
      ensures h == NULL ==> lent == old(lent)
      ensures h != NULL ==> h !in live + old(lent) + attached + sessions + pooled && lent == old(lent) + {h}
    {
      if !works { return NULL; }
      h, next, lent := next, next + 1, lent + {next};
    }

    method ServerAttach(svr: Handle, works: bool) returns (ok: bool)
      requires Valid() && svr in live
      modifies this`attached
      ensures Valid() && ok == works && attached == if works then old(attached) + {svr} else old(attached)
    {
      if works { attached := attached + {svr}; }
      ok := works;
    }

    method ServerDetach(svr: Handle, works: bool) returns (ok: bool)
      requires Valid() && svr in attached
      modifies this`attached
      ensures Valid() && ok == works && attached == if works then old(attached) - {svr} else old(attached)
    {
      if works { attached := attached - {svr}; }
      ok := works;
    }

    method SessionBegin(ses: Handle, works: bool) returns (ok: bool)
      requires Valid() && ses in live
      modifies this`sessions
      ensures Valid() && ok == works && sessions == if works then old(sessions) + {ses} else old(sessions)
    {
      if works { sessions := sessions + {ses}; }
      ok := works;
    }

    method SessionEnd(ses: Handle, works: bool) returns (ok: bool)
      requires Valid() && ses in sessions
      modifies this`sessions
      ensures Valid() && ok == works && sessions == if works then old(sessions) - {ses} else old(sessions)
    {
      if works { sessions := sessions - {ses}; }
      ok := works;
    }

    /** Takes a session from a pool; its context is lent. */
    method SessionGet(works: bool) returns (cxt: Handle)
      requires Valid()
      modifies this`next, this`lent, this`pooled
      ensures Valid() && (cxt != NULL <==> works)
      ensures cxt == NULL ==> lent == old(lent) && pooled == old(pooled)
      ensures cxt != NULL ==>
        && cxt !in live + old(lent) + attached + sessions + old(pooled)
        && lent == old(lent) + {cxt} && pooled == old(pooled) + {cxt}
    {
      cxt := Lend(works);
      if cxt != NULL { pooled := pooled + {cxt}; }
    }

    method SessionRelease(cxt: Handle, works: bool) returns (ok: bool)
      requires Valid() && cxt in pooled
      modifies this`pooled
      ensures Valid() && ok == works && pooled == if works then old(pooled) - {cxt} else old(pooled)
    {
      if works { pooled := pooled - {cxt}; }
      ok := works;
    }
  }

  class Con {
    const oci: Oci
    const kind: Kind
    /** Which steps OCI will not refuse this connection. */
    const works: Step -> bool
    var stage: Stage
    var err: Handle
    var svr: Handle
    var ses: Handle
    var cxt: Handle

    constructor (oci: Oci, kind: Kind, works: Step -> bool)
      requires oci.Valid()
      ensures this.oci == oci && this.kind == kind && this.works == works && Valid() && Clean() && stage == Created
    {
      this.oci, this.kind, this.works, stage := oci, kind, works, Created;
      err, svr, ses, cxt := NULL, NULL, NULL, NULL;
    }

    /** The handles the connection has to free. */
    ghost function Owned(): set<Handle>
      reads this
    {
      (if Allocates(kind) then {err, svr, ses, cxt} else {err}) - {NULL}
    }

    /** No handles. */
    predicate Clean()
      reads this
    {
      err == NULL && svr == NULL && ses == NULL && cxt == NULL
    }

    /** Owned handles are distinct and live, lent ones are not live. */
    ghost predicate Sound()
      reads this, oci
    {
      && oci.Valid()
      && (stage == Created ==> Clean()) && (stage != Created ==> err in oci.live)
      && (Allocates(kind) ==>
            && (svr == NULL || (svr in oci.live && svr != err))
            && (stage == Attached || stage == Logged ==> svr in oci.attached)
            && (if ses == NULL then cxt == NULL else
                  ses in oci.live && cxt in oci.live && ses != cxt && ses !in {err, svr} && cxt !in {err, svr}))
      && (!Allocates(kind) ==> svr !in oci.live && ses !in oci.live && cxt !in oci.live)
    }

    /** Sound, with what belongs to the stage and nothing more. */
    ghost predicate Valid()
      reads this, oci
    {
      && Sound()
      && (stage == Created || stage == Allocated ==> ses == NULL && cxt == NULL)
      && (Allocates(kind) ==> if stage == Logged then ses in oci.sessions else ses == NULL)
      && (kind == SessionPool && stage == Logged ==> cxt in oci.pooled)
    }

    // ------------------------------------------------------------------------ construction

    /** OcilibConnectionAllocate, from the handles' point of view. */
    method Allocate() returns (ok: bool)
      requires Valid() && stage == Created
      modifies this`stage, this`err, oci`next, oci`live
      ensures Valid() && ok == Allocating(kind, works) && stage == if ok then Allocated else Created
      ensures oci.live == old(oci.live) + Owned() && Owned() !! old(oci.live)
    {
      if kind == XA && !works(XaEnvironment) { return false; }
      err := oci.Alloc(works(AllocError));
      ok := err != NULL;
      if ok { stage := Allocated; }
    }

    /** OcilibConnectionAttach: a failed attach leaves the server handle to be freed later. */
    method Attach() returns (ok: bool)
      requires Valid() && stage == Allocated && svr == NULL
      modifies this`stage, this`svr, oci`next, oci`live, oci`attached
      ensures Valid() && ok == (Allocates(kind) ==> works(AllocServer) && works(ServerAttach))
      ensures stage == if ok then Attached else Allocated
      ensures oci.live == old(oci.live) + Owned() && Owned() - old(Owned()) !! old(oci.live)
      ensures oci.attached == if ok && Allocates(kind) then old(oci.attached) + {svr} else old(oci.attached)
      ensures svr != NULL ==> svr !in old(oci.attached)
    {
      if Allocates(kind) {
        svr := oci.Alloc(works(AllocServer));
        if svr == NULL { return false; }
        ok := oci.ServerAttach(svr, works(ServerAttach));
        if !ok { return false; }
      }
      stage := Attached;
      ok := true;
    }

    /** A logon gets as far as the session. */
    predicate Begins() {
      works(AllocSession) && works(AllocContext) && works(Credentials) && works(SessionBegin)
    }

    /**
     OcilibConnectionLogonRegular. Whatever fails, the session and context handles are freed again; a
     session that was begun before that is not ended.
     */
    method LogonRegular() returns (ok: bool, ghost begun: Handle)
      requires Valid() && stage == Attached && Allocates(kind)
      modifies this`ses, this`cxt, oci`next, oci`live, oci`sessions
      ensures Sound() && ok == (Begins() && works(SessionStart)) && (if ok then begun == ses else ses == NULL)
      ensures oci.live == old(oci.live) + Owned() && Owned() - old(Owned()) !! old(oci.live)
      ensures oci.sessions == old(oci.sessions) + One(Begins(), begun) && begun !in old(oci.sessions)
    {
      ok := AllocateSession();
      begun := ses;
      if ok {
        ok := works(Credentials);                  // the server attribute, the credentials
      }
      if ok {
        ok := oci.SessionBegin(ses, works(SessionBegin));   // or a password change that opens the session
      }
      if ok {
        ok := works(SessionStart);                 // the session attribute, the first transaction
      }
      if !ok {
        FreeSession();
      }
    }

    method AllocateSession() returns (ok: bool)
      requires Valid() && stage == Attached && Allocates(kind)
      modifies this`ses, this`cxt, oci`next, oci`live
      ensures oci.Valid() && ok == (works(AllocSession) && works(AllocContext))
      ensures ses !in old(oci.live) + oci.sessions && (ses == NULL ==> cxt == NULL) && cxt !in old(oci.live)
      ensures oci.live == old(oci.live) + ({ses, cxt} - {NULL}) && (ok ==> NULL !in {ses, cxt} && ses != cxt)
      ensures ses != NULL ==> ses != cxt
    {
      ok := false;
      ses := oci.Alloc(works(AllocSession));
      if ses == NULL { return; }
      cxt := oci.Alloc(works(AllocContext));
      ok := cxt != NULL;
    }

    method FreeSession()
      requires oci.Valid() && {ses, cxt} - {NULL} <= oci.live && (ses != NULL ==> ses != cxt)
      modifies this`ses, this`cxt, oci`live
      ensures oci.Valid() && ses == NULL && cxt == NULL && oci.live == old(oci.live) - {old(ses), old(cxt)}
    {
      if ses != NULL { oci.Free(ses); }
      if cxt != NULL { oci.Free(cxt); }
      ses, cxt := NULL, NULL;
    }

    /** OcilibConnectionLogonSessionPool: nothing is given back when a later step fails. */
    method LogonSessionPool() returns (ok: bool)
      requires Valid() && stage == Attached && kind == SessionPool
      modifies this`svr, this`ses, this`cxt, oci`next, oci`lent, oci`pooled
      ensures Sound() && ok == (works(SessionGet) && works(LentServer) && works(LentSession) && works(SessionTag))
      ensures oci.pooled == old(oci.pooled) + One(works(SessionGet), cxt) && cxt !in old(oci.pooled)
    {
      ok := false;
      cxt := oci.SessionGet(works(SessionGet));
      if cxt == NULL { return; }
      svr := oci.Lend(works(LentServer));
      if svr == NULL { return; }
      ses := oci.Lend(works(LentSession));
      if ses == NULL { return; }
      ok := works(SessionTag);                     // set when the session found has a tag
    }

    /** OcilibConnectionLogonXA */
    method LogonXA() returns (ok: bool)
      requires Valid() && stage == Attached && kind == XA
      modifies this`svr, this`ses, this`cxt, oci`next, oci`lent
      ensures Sound() && ok == (works(LentContext) && works(LentServer) && works(LentSession))
    {
      cxt := oci.Lend(works(LentContext));
      if cxt == NULL { return false; }
      svr := oci.Lend(works(LentServer));
      if svr == NULL { return false; }
      ses := oci.Lend(works(LentSession));
      ok := ses != NULL;
    }

    /** A logon succeeds. */
    predicate LogsOn() {
      if Allocates(kind) then Begins() && works(SessionStart)
      else if kind == XA then works(LentContext) && works(LentServer) && works(LentSession)
      else works(SessionGet) && works(LentServer) && works(LentSession) && works(SessionTag)
    }

    /** OcilibConnectionLogon */
    method Logon() returns (ok: bool, ghost begun: Handle)
      requires Valid() && stage == Attached
      modifies this`stage, this`svr, this`ses, this`cxt, oci`next, oci`live, oci`lent, oci`sessions, oci`pooled
      ensures Valid() && ok == LogsOn() && stage == if ok then Logged else Attached
      ensures oci.live == old(oci.live) + Owned() && Owned() - old(Owned()) !! old(oci.live)
      ensures oci.sessions == old(oci.sessions) + One(Allocates(kind) && Begins(), begun) && begun !in old(oci.sessions)
      ensures ok && Allocates(kind) ==> begun == ses
      ensures oci.pooled == old(oci.pooled) + One(kind == SessionPool && works(SessionGet), cxt)
      ensures kind == SessionPool ==> cxt !in old(oci.pooled)
      ensures Allocates(kind) ==> svr == old(svr)
    {
      begun := NULL;
      if kind == XA {
        ok := LogonXA();
      } else if Allocates(kind) {
        ok, begun := LogonRegular();
      } else {
        ok := LogonSessionPool();
      }
      if ok { stage := Logged; }
    }

    // ---------------------------------------------------------------------------- teardown

    /** How the end of the session will go. */
    function Ending(): Outcome
      reads this
    {
      if stage != Logged || kind == XA then NotReached
      else if works(if Allocates(kind) then SessionEnd else SessionRelease) then Succeeded else Failed
    }

    /** How leaving the server will go. */
    function Detaching(): Outcome
      reads this
    {
      if stage == Created || stage == Allocated || !Allocates(kind) then NotReached
      else if works(ServerDetach) then Succeeded else Failed
    }

    /**
     OcilibConnectionLogOff: only a logged connection logs off, and whatever comes of it, the connection
     counts as attached.
     */
    method LogOff()
      requires Valid()
      modifies this`stage, this`svr, this`ses, this`cxt, oci`live, oci`sessions, oci`pooled
      ensures Sound() && stage == if old(stage) == Logged then Attached else old(stage)
      ensures if Allocates(kind) && old(Ending()) == Succeeded then
                ses == NULL && cxt == NULL && oci.live == old(oci.live) - {old(ses), old(cxt)}
              else
                oci.live == old(oci.live) && (Allocates(kind) ==> ses == old(ses) && cxt == old(cxt))
      ensures Allocates(kind) ==> svr == old(svr)
      ensures !Allocates(kind) ==>
        if kind == SessionPool && old(Ending()) == Succeeded then svr == NULL && ses == NULL && cxt == NULL
        else svr == old(svr) && ses == old(ses) && cxt == old(cxt)
      ensures oci.sessions == if Allocates(kind) && old(Ending()) == Succeeded then old(oci.sessions) - {old(ses)} else old(oci.sessions)
      ensures oci.pooled == if kind == SessionPool && old(Ending()) == Succeeded then old(oci.pooled) - {old(cxt)} else old(oci.pooled)
    {
      if stage != Logged { return; }
      if kind == XA {
      } else if Allocates(kind) {
        var ok := oci.SessionEnd(ses, works(SessionEnd));
        if ok {
          oci.Free(ses);
          oci.Free(cxt);
          ses, cxt := NULL, NULL;
        }
      } else {
        var ok := oci.SessionRelease(cxt, works(SessionRelease));
        if ok {
          cxt, ses, svr := NULL, NULL, NULL;
        }
      }
      stage := Attached;
    }

    /** OcilibConnectionDetach: a connection that cannot be detached stays attached. */
    method Detach()
      requires Sound() && stage != Logged
      modifies this`stage, this`svr, oci`live, oci`attached
      ensures Sound() && stage == if old(stage) == Attached && old(Detaching()) != Failed then Allocated else old(stage)
      ensures if old(Detaching()) == Succeeded then svr == NULL && oci.live == old(oci.live) - {old(svr)} else svr == old(svr) && oci.live == old(oci.live)
      ensures oci.attached == if old(Detaching()) == Succeeded then old(oci.attached) - {old(svr)} else old(oci.attached)
    {
      if stage != Attached { return; }
      if Allocates(kind) && svr != NULL {
        var ok := oci.ServerDetach(svr, works(ServerDetach));
        if !ok { return; }
        oci.Free(svr);
        svr := NULL;
      }
      stage := Allocated;
    }

    /** OcilibConnectionDeallocate: frees the error handle, and the server handle of a failed attach. */
    method Deallocate()
      requires Sound() && stage != Logged
      modifies this`err, this`svr, this`ses, this`cxt, oci`live
      ensures oci.Valid()
      ensures if stage == Allocated then
                Clean() && oci.live == old(oci.live) - if Allocates(kind) then {old(err), old(svr)} else {old(err)}
              else
                oci.live == old(oci.live) && err == old(err) && svr == old(svr) && ses == old(ses) && cxt == old(cxt)
    {
      if stage != Allocated { return; }
      if err != NULL { oci.Free(err); }
      if svr != NULL && Allocates(kind) { oci.Free(svr); }
      cxt, ses, svr, err := NULL, NULL, NULL, NULL;
    }

    method LeaveServer()
      requires Sound() && stage != Logged
      modifies this`stage, this`err, this`svr, this`ses, this`cxt, oci`live, oci`attached
      ensures oci.Valid()
      ensures if old(Detaching()) == Failed then oci.live == old(oci.live) && err == old(err) && svr == old(svr)
              else Clean() && oci.live == old(oci.live) - if Allocates(kind) then {old(err), old(svr)} else {old(err)}
      ensures oci.attached == if old(Detaching()) == Succeeded then old(oci.attached) - {old(svr)} else old(oci.attached)
    {
      Detach();
      Deallocate();
    }

    /** The owned handles that stay when the session cannot be ended or the server not detached. */
    ghost function Kept(): set<Handle>
      reads this
    {
      (if Allocates(kind) && Ending() == Failed then {ses, cxt} else {}) + (if Detaching() == Failed then {err, svr} else {})
    }

    /**
     OcilibConnectionDispose, from any stage. A session that cannot be ended keeps its session and context
     handles; a server that cannot be detached keeps the server and the error handle. All owned handles
     are freed, each once, and no lent one ever, if and only if neither happens.
     */
    method Dispose()
      requires Valid()
      modifies this`stage, this`err, this`svr, this`ses, this`cxt, oci`live, oci`attached, oci`sessions, oci`pooled
      ensures oci.Valid()
      ensures oci.live == old(oci.live) - (old(Owned()) - old(Kept()))
      ensures oci.live == old(oci.live) - old(Owned()) <==> !(Allocates(kind) && old(Ending()) == Failed) && old(Detaching()) != Failed
      ensures if old(Detaching()) == Failed then err == old(err) && svr == old(svr) else Clean()
      ensures oci.attached == if old(Detaching()) == Succeeded then old(oci.attached) - {old(svr)} else old(oci.attached)
      ensures oci.sessions == if Allocates(kind) && old(Ending()) == Succeeded then old(oci.sessions) - {old(ses)} else old(oci.sessions)
      ensures oci.pooled == if kind == SessionPool && old(Ending()) == Succeeded then old(oci.pooled) - {old(cxt)} else old(oci.pooled)
    {
      LogOff();
      LeaveServer();
      NoneStay(old(oci.live), old(Owned()), old(Kept()));
    }
  }

  lemma NoneStay(live: set<Handle>, owned: set<Handle>, kept: set<Handle>)
    requires kept <= owned <= live
    ensures live - (owned - kept) == live - owned <==> kept == {}
  {
    if kept != {} {
      var h :| h in kept;
      assert h in live - (owned - kept);
    }
  }

  /** The stages of the construction, up to the first that fails. */
  method Build(c: Con) returns (ok: bool, ghost begun: Handle)
    requires c.Valid() && c.stage == Created
    modifies c, c.oci
    ensures c.Valid() && ok == Connects(c.kind, c.works) && (ok <==> c.stage == Logged)
    ensures c.stage == Attached || c.stage == Logged ==> Allocates(c.kind) ==> Attaching(c.kind, c.works)
    ensures Attaching(c.kind, c.works) ==> c.stage == Attached || c.stage == Logged
    ensures c.oci.live == old(c.oci.live) + c.Owned() && c.Owned() !! old(c.oci.live)
    ensures c.oci.sessions == old(c.oci.sessions) + One(Beginning(c.kind, c.works), begun) && begun !in old(c.oci.sessions)
    ensures ok && Allocates(c.kind) ==> begun == c.ses
    ensures c.oci.pooled == old(c.oci.pooled) + One(Taking(c.kind, c.works), c.cxt)
    ensures c.kind == SessionPool ==> c.cxt !in old(c.oci.pooled)
    ensures c.oci.attached == old(c.oci.attached) + One(Attaching(c.kind, c.works), c.svr)
    ensures Allocates(c.kind) && c.svr != NULL ==> c.svr !in old(c.oci.attached)
  {
    begun := NULL;
    ghost var live := c.oci.live;
    ok := c.Allocate();
    if !ok { return; }
    ok := c.Attach();
    assert c.oci.live == live + c.Owned() && c.Owned() !! live;
    if !ok { return; }
    ok, begun := c.Logon();
  }

  /** The server stays attached. */
  predicate Stuck(k: Kind, works: Step -> bool) {
    Attaching(k, works) && !works(ServerDetach)
  }

  /** Disposes of a connection whose construction failed. */
  method GiveUp(c: Con, ghost live: set<Handle>, ghost attached: set<Handle>) returns (ghost err: Handle, ghost svr: Handle)
    requires c.Valid() && c.stage != Logged && c.oci.live == live + c.Owned() && c.Owned() !! live
    requires Attaching(c.kind, c.works) <==> c.stage == Attached && Allocates(c.kind)
    requires c.oci.attached == attached + One(Attaching(c.kind, c.works), c.svr)
    requires Allocates(c.kind) && c.svr != NULL ==> c.svr !in attached
    modifies c, c.oci`live, c.oci`attached, c.oci`sessions, c.oci`pooled
    ensures c.oci.Valid() && c.oci.sessions == old(c.oci.sessions) && c.oci.pooled == old(c.oci.pooled)
    ensures c.oci.live == live + if Stuck(c.kind, c.works) then {err, svr} else {}
    ensures c.oci.attached == attached + One(Stuck(c.kind, c.works), svr)
    ensures Stuck(c.kind, c.works) ==> err != svr && {err, svr} !! live && svr !in attached
  {
    err, svr := c.err, c.svr;
    WhatStays(live, c.Owned(), c.Kept());
    c.Dispose();
  }

  lemma WhatStays(live: set<Handle>, owned: set<Handle>, kept: set<Handle>)
    requires owned !! live && kept <= owned
    ensures (live + owned) - (owned - kept) == live + kept && kept !! live
  {
  }

  /**
   OcilibConnectionCreateInternal: a connection if and only if no step is refused, or else nothing. Then every
   handle allocated on the way is freed again, unless the server stays attached: it keeps its own handle and
   the error handle. A session begun by a logon that failed is never ended, and one taken from a pool never
   given back.
   */
  method Create(oci: Oci, kind: Kind, works: Step -> bool)
    returns (con: Con?, ghost err: Handle, ghost svr: Handle, ghost begun: Handle, ghost taken: Handle)
    requires oci.Valid()
    modifies oci
    ensures oci.Valid() && (con != null <==> Connects(kind, works))
    ensures oci.sessions == old(oci.sessions) + One(Beginning(kind, works), begun) && begun !in old(oci.sessions)
    ensures oci.pooled == old(oci.pooled) + One(Taking(kind, works), taken)
    ensures Taking(kind, works) ==> taken !in old(oci.pooled)
    ensures con != null ==>
      && fresh(con) && con.Valid() && con.oci == oci && con.kind == kind && con.works == works && con.stage == Logged
      && oci.live == old(oci.live) + con.Owned() && con.Owned() !! old(oci.live)
      && |con.Owned()| == (if Allocates(kind) then 4 else 1)
      && oci.attached == old(oci.attached) + One(Allocates(kind), con.svr) && svr == con.svr
      && (Allocates(kind) ==> begun == con.ses && con.svr !in old(oci.attached)) && (kind == SessionPool ==> taken == con.cxt)
    ensures con == null ==>
      && oci.live == old(oci.live) + (if Stuck(kind, works) then {err, svr} else {})
      && oci.attached == old(oci.attached) + One(Stuck(kind, works), svr)
      && (Stuck(kind, works) ==> err != svr && {err, svr} !! old(oci.live) && svr !in old(oci.attached))
  {
    var c := new Con(oci, kind, works);
    var ok;
    ghost var live, attached := oci.live, oci.attached;
    ok, begun := Build(c);
    taken, err, svr := c.cxt, c.err, c.svr;
    if ok {
      con := c;
      AllDistinct(c);
    } else {
      err, svr := GiveUp(c, live, attached);
      con := null;
    }
  }

  lemma AllDistinct(c: Con)
    requires c.Valid() && c.stage == Logged
    ensures |c.Owned()| == if Allocates(c.kind) then 4 else 1
  {
    if Allocates(c.kind) {
      assert c.Owned() == {c.err, c.svr, c.ses, c.cxt};
    } else {
      assert c.Owned() == {c.err};
    }
  }

  /** What is not given back when a connection is created, and disposed of if there is one. */
  datatype Leak = Leak(handles: bool, server: bool, session: bool, pooled: bool)

  /**
   Handles stay if and only if the server, attached to, cannot be detached, or the session of a connection cannot
   be ended; a server stays attached in the first case. A session stays begun if and only if its connection did
   not come about, or it cannot be ended; and one taken from a pool, likewise, if it is not or cannot be released.
   */
  function Leaks(k: Kind, works: Step -> bool): Leak {
    Leak(Stuck(k, works) || (Allocates(k) && Connects(k, works) && !works(SessionEnd)),
         Stuck(k, works),
         Beginning(k, works) && !(Connects(k, works) && works(SessionEnd)),
         Taking(k, works) && !(Connects(k, works) && works(SessionRelease)))
  }

  /** What a connection that comes about may leak. */
  lemma LeaksOfConnection(k: Kind, works: Step -> bool)
    requires Connects(k, works)
    ensures Leaks(k, works) == Leak(Allocates(k) && !(works(ServerDetach) && works(SessionEnd)), Allocates(k) && !works(ServerDetach),
                                    Allocates(k) && !works(SessionEnd), k == SessionPool && !works(SessionRelease))
  {
  }

  /** In `now` there is more than in `was` of exactly the kinds in `leak`. */
  predicate Leaves(was: Given, now: Given, leak: Leak) {
    && was.live <= now.live && (now.live != was.live <==> leak.handles) && (now.attached != was.attached <==> leak.server)
    && (now.sessions != was.sessions <==> leak.session) && (now.pooled != was.pooled <==> leak.pooled)
  }

  lemma FailureLeaves(k: Kind, works: Step -> bool, was: Given, now: Given, err: Handle, svr: Handle, begun: Handle, taken: Handle)
    requires !Connects(k, works)
    requires now.live == was.live + (if Stuck(k, works) then {err, svr} else {}) && now.attached == was.attached + One(Stuck(k, works), svr)
    requires Stuck(k, works) ==> {err, svr} !! was.live && svr !in was.attached
    requires now.sessions == was.sessions + One(Beginning(k, works), begun) && begun !in was.sessions
    requires now.pooled == was.pooled + One(Taking(k, works), taken) && (Taking(k, works) ==> taken !in was.pooled)
    ensures Leaves(was, now, Leaks(k, works))
  {
    assert Stuck(k, works) ==> err in now.live && svr in now.attached;
    assert Beginning(k, works) ==> begun in now.sessions;
    assert Taking(k, works) ==> taken in now.pooled;
  }

  /** Disposes of a connection in front of which there was what is in `was`. */
  method EndOfLife(c: Con, ghost was: Given)
    requires c.Valid() && c.stage == Logged && Connects(c.kind, c.works) && c.oci.live == was.live + c.Owned() && c.Owned() !! was.live
    requires c.oci.attached == was.attached + One(Allocates(c.kind), c.svr) && c.oci.sessions == was.sessions + One(Allocates(c.kind), c.ses)
    requires c.oci.pooled == was.pooled + One(c.kind == SessionPool, c.cxt)
    requires Allocates(c.kind) ==> c.svr !in was.attached && c.ses !in was.sessions
    requires c.kind == SessionPool ==> c.cxt !in was.pooled
    modifies c, c.oci`live, c.oci`attached, c.oci`sessions, c.oci`pooled
    ensures c.oci.Valid() && Leaves(was, c.oci.State(), Leaks(c.kind, c.works))
  {
    LeaksOfConnection(c.kind, c.works);
    ghost var kept, ses, svr, cxt := c.Kept(), c.ses, c.svr, c.cxt;
    WhatStays(was.live, c.Owned(), kept);
    c.Dispose();
    assert c.oci.live == was.live + kept;
    assert Allocates(c.kind) && !c.works(SessionEnd) ==> ses in kept && ses in c.oci.sessions;
    assert Allocates(c.kind) && !c.works(ServerDetach) ==> svr in kept && svr in c.oci.attached;
    assert c.kind == SessionPool && !c.works(SessionRelease) ==> cxt in c.oci.pooled;
  }

  /**
   A connection that is created, and disposed of if there is one, leaves exactly those kinds of things behind that
   the refused steps make it leak.
   */
  method CreateAndDispose(oci: Oci, kind: Kind, works: Step -> bool)
    requires oci.Valid()
    modifies oci
    ensures oci.Valid() && Leaves(old(oci.State()), oci.State(), Leaks(kind, works))
  {
    ghost var err, svr, begun, taken;
    var con;
    ghost var was := oci.State();
    con, err, svr, begun, taken := Create(oci, kind, works);
    if con == null {
      FailureLeaves(kind, works, was, oci.State(), err, svr, begun, taken);
    } else {
      EndOfLife(con, was);
    }
  }
}
