/**
 * The store of variable-length commands of a diagnosis calculator (CAN/CANDiagCalculator.cpp): packed
 * headers of type, id and size, each followed by size bytes, up to a header of type CMD_END.
 */
module CANDiagCalculator {
  import opened Bytes
  import opened Wrappers

  const CMD_END := 0
  const HDR := 7               // sizeof(CANDiagCommandHeader), packed: type 0-1, id 2-5, size 6
  const CALC_HDR := 20         // sizeof(CANDiagCalculatorHeader), packed: cmdLen at 18
  const HDR_TYPE: Byte := 1    // CAN_DIAG_HDR_TYPE
  const STORAGE := 256         // CAN_DIAG_CMD_STORAGE

  datatype Command = Command(kind: nat, id: seq<Byte>, data: seq<Byte>)

  // ----- headers in a run of bytes -----

  predicate HeaderAt(s: seq<Byte>, o: nat) {
    o + HDR <= |s|
  }

  function Kind(s: seq<Byte>, o: nat): nat
    requires HeaderAt(s, o)
  {
    Word16(s, o)
  }

  function Next(s: seq<Byte>, o: nat): (p: nat)
    requires HeaderAt(s, o)
    ensures o + HDR <= p
  {
    o + HDR + s[o + 6]
  }

  /** The walk from offset o meets an end marker without leaving s. */
  predicate Ends(s: seq<Byte>, o: nat)
    decreases |s| - o
  {
    HeaderAt(s, o) && (Kind(s, o) == CMD_END || Ends(s, Next(s, o)))
  }

  /** Where the commands from offset o on begin. */
  function Offsets(s: seq<Byte>, o: nat): (r: seq<nat>)
    requires Ends(s, o)
    ensures forall p :: p in r ==> HeaderAt(s, p) && Next(s, p) <= |s| && Kind(s, p) != CMD_END
    decreases |s| - o
  {
    if Kind(s, o) == CMD_END then [] else [o] + Offsets(s, Next(s, o))
  }

  function CommandAt(s: seq<Byte>, o: nat): Command
    requires HeaderAt(s, o) && Next(s, o) <= |s|
  {
    Command(Kind(s, o), s[o + 2..o + 6], s[o + HDR..Next(s, o)])
  }

  function CommandsAt(s: seq<Byte>, at: seq<nat>): seq<Command>
    requires forall p :: p in at ==> HeaderAt(s, p) && Next(s, p) <= |s|
  {
    if at == [] then [] else [CommandAt(s, at[0])] + CommandsAt(s, at[1..])
  }

  // ----- a packed list of commands is read back -----

  predicate Storable(c: Command) {
    CMD_END < c.kind < U16 && |c.id| == 4 && |c.data| < 0x100
  }

  predicate AllStorable(cs: seq<Command>) {
    forall i :: 0 <= i < |cs| ==> Storable(cs[i])
  }

  function Header(kind: nat, id: seq<Byte>, size: Byte): (s: seq<Byte>)
    requires kind < U16 && |id| == 4
    ensures |s| == HDR && Word16(s, 0) == kind && s[2..6] == id && s[6] == size
  {
    [kind % 0x100, kind / 0x100] + id + [size]
  }

  /** The bytes of a list of commands, with its end marker. */
  function Pack(cs: seq<Command>): (s: seq<Byte>)
    requires AllStorable(cs)
    ensures |s| >= HDR
  {
    if cs == [] then Header(CMD_END, [0, 0, 0, 0], 0)
    else Header(cs[0].kind, cs[0].id, |cs[0].data|) + cs[0].data + Pack(cs[1..])
  }

  /** Packing is undone by the walk, wherever the packed bytes lie and whatever follows them. */
  lemma {:induction false} UnpackUndoesPack(cs: seq<Command>, s: seq<Byte>, o: nat)
    requires AllStorable(cs) && o + |Pack(cs)| <= |s| && s[o..o + |Pack(cs)|] == Pack(cs)
    ensures Ends(s, o) && CommandsAt(s, Offsets(s, o)) == cs
    decreases |cs|
  {
    var w := Pack(cs);
    assert forall k :: 0 <= k < |w| ==> s[o + k] == w[k];
    if cs != [] {
      var head, data, tail := Header(cs[0].kind, cs[0].id, |cs[0].data|), cs[0].data, Pack(cs[1..]);
      assert w == head + data + tail;
      HeaderRead(s, o, head, data, tail);
      assert CommandAt(s, o) == cs[0];
      UnpackUndoesPack(cs[1..], s, Next(s, o));
      assert Offsets(s, o)[1..] == Offsets(s, Next(s, o));
    } else {
      HeaderRead(s, o, w, [], []);
    }
  }

  lemma HeaderRead(s: seq<Byte>, o: nat, head: seq<Byte>, data: seq<Byte>, tail: seq<Byte>)
    requires |head| == HDR && head[6] == |data|
    requires o + |head + data + tail| <= |s| && s[o..o + |head + data + tail|] == head + data + tail
    ensures Kind(s, o) == Word16(head, 0) && Next(s, o) == o + HDR + |data|
    ensures s[o + 2..o + 6] == head[2..6] && s[o + HDR..Next(s, o)] == data
    ensures s[Next(s, o)..Next(s, o) + |tail|] == tail
  {
    var w := head + data + tail;
    assert s[o + 6] == s[o..o + |w|][6] == head[6];
    assert s[o] == s[o..o + |w|][0] == head[0] && s[o + 1] == s[o..o + |w|][1] == head[1];
    assert w[2..6] == head[2..6] && w[HDR..HDR + |data|] == data && w[HDR + |data|..|w|] == tail;
    Slice(s, o, w, 2, 6);
    Slice(s, o, w, HDR, HDR + |data|);
    Slice(s, o, w, HDR + |data|, |w|);
  }

  lemma Slice(s: seq<Byte>, o: nat, w: seq<Byte>, i: nat, j: nat)
    requires o + |w| <= |s| && s[o..o + |w|] == w && i <= j <= |w|
    ensures s[o + i..o + j] == w[i..j]
  {
    forall k | 0 <= k < j - i
      ensures s[o + i..o + j][k] == w[i..j][k]
    {
      assert s[o + i + k] == s[o..o + |w|][i + k];
    }
  }

  // ----- validation -----

  /** The walk from o reaches an end marker or a size over 8 without leaving s. */
  predicate Checkable(s: seq<Byte>, o: nat)
    decreases |s| - o
  {
    HeaderAt(s, o) && (Kind(s, o) == CMD_END || s[o + 6] > 8 || Checkable(s, Next(s, o)))
  }

  /** The walk from o reaches an end marker and meets no size over 8. */
  predicate Passes(s: seq<Byte>, o: nat)
    decreases |s| - o
  {
    HeaderAt(s, o) && (Kind(s, o) == CMD_END || (s[o + 6] <= 8 && Passes(s, Next(s, o))))
  }

  /** The walk over s passes iff it ends in s and every command has at most 8 bytes: a frame's worth. What s is,
      the store or all of the storage, ValidatedIff tells apart. */
  lemma {:induction false} PassesIff(s: seq<Byte>, o: nat)
    ensures Passes(s, o) <==>
              Ends(s, o) && forall c :: c in CommandsAt(s, Offsets(s, o)) ==> |c.data| <= 8
    decreases |s| - o
  {
    if HeaderAt(s, o) && Kind(s, o) != CMD_END {
      var p := Next(s, o);
      PassesIff(s, p);
      if Ends(s, p) {
        assert Offsets(s, o)[1..] == Offsets(s, p);
        assert CommandsAt(s, Offsets(s, o)) == [CommandAt(s, o)] + CommandsAt(s, Offsets(s, p));
        assert CommandAt(s, o) in CommandsAt(s, Offsets(s, o));
      }
    }
  }

  // ----- iteration -----

  /** Where a search ends: at a header of the kind looked for, at the end marker, or outside of the bytes. */
  datatype Search = Found(at: nat) | NotFound | Outside

  /** The search from offset o on, up to and including the end marker. */
  function Walk(s: seq<Byte>, o: nat, kind: nat): (r: Search)
    ensures r.Found? ==> o <= r.at && HeaderAt(s, r.at) && Kind(s, r.at) == kind
    ensures Ends(s, o) ==> r != Outside && (r.Found? ==> Ends(s, r.at))
    decreases |s| - o
  {
    if !HeaderAt(s, o) then Outside
    else if Kind(s, o) == kind then Found(o)
    else if Kind(s, o) == CMD_END then NotFound
    else Walk(s, Next(s, o), kind)
  }

  /** FirstCommand steps over the first header without asking whether it is the end marker. */
  function First(s: seq<Byte>, kind: nat): (r: Search)
    ensures r.Found? ==> HeaderAt(s, r.at) && Kind(s, r.at) == kind
  {
    if !HeaderAt(s, 0) then Outside
    else if Kind(s, 0) == kind then Found(0)
    else Walk(s, Next(s, 0), kind)
  }

  /** Bytes behind those a search stays in do not change it. */
  lemma {:induction false} WalkPrefix(s: seq<Byte>, t: seq<Byte>, o: nat, kind: nat)
    requires s <= t && Walk(s, o, kind) != Outside
    ensures Walk(t, o, kind) == Walk(s, o, kind)
    decreases |s| - o
  {
    assert forall k :: 0 <= k < |s| ==> t[k] == s[k];
    if Kind(s, o) != kind && Kind(s, o) != CMD_END { WalkPrefix(s, t, Next(s, o), kind); }
  }

  /** The commands met from position at on, asking for the next one until there is none. */
  function Visited(s: seq<Byte>, at: Search, kind: nat): seq<Command>
    requires kind != CMD_END && (at.Found? ==> Ends(s, at.at) && Kind(s, at.at) == kind)
    decreases if at.Found? then |s| - at.at else 0, if at.Found? then 1 else 0
  {
    if !at.Found? then []
    else
      EndsInside(s, at.at);
      [CommandAt(s, at.at)] + Visited(s, Walk(s, Next(s, at.at), kind), kind)
  }

  lemma EndsInside(s: seq<Byte>, o: nat)
    requires Ends(s, o)
    ensures Kind(s, o) != CMD_END ==> Next(s, o) + HDR <= |s|
  {
    assert Kind(s, o) != CMD_END ==> Ends(s, Next(s, o));
  }

  function OfKind(cs: seq<Command>, kind: nat): seq<Command> {
    if cs == [] then [] else (if cs[0].kind == kind then [cs[0]] else []) + OfKind(cs[1..], kind)
  }

  lemma FirstOfOffsets(s: seq<Byte>, o: nat)
    requires Ends(s, o) && Kind(s, o) != CMD_END
    ensures CommandsAt(s, Offsets(s, o)) == [CommandAt(s, o)] + CommandsAt(s, Offsets(s, Next(s, o)))
  {
    assert Offsets(s, o)[1..] == Offsets(s, Next(s, o));
  }

  lemma {:induction false} WalkVisits(s: seq<Byte>, o: nat, kind: nat)
    requires Ends(s, o) && kind != CMD_END
    ensures Visited(s, Walk(s, o, kind), kind) == OfKind(CommandsAt(s, Offsets(s, o)), kind)
    decreases |s| - o
  {
    if Kind(s, o) != CMD_END {
      var p := Next(s, o);
      WalkVisits(s, p, kind);
      FirstOfOffsets(s, o);
      var cs := CommandsAt(s, Offsets(s, o));
      assert cs[0] == CommandAt(s, o) && cs[1..] == CommandsAt(s, Offsets(s, p));
    }
  }

  /** FirstCommand and then NextCommand until NULL meet exactly the commands of the type up to the end marker, in
      their order, if there is a command in front of it. s is what they read: all of the storage. */
  lemma IterationIsFilter(s: seq<Byte>, kind: nat)
    requires Ends(s, 0) && Kind(s, 0) != CMD_END && kind != CMD_END
    ensures First(s, kind) == Walk(s, 0, kind)
    ensures Visited(s, First(s, kind), kind) == OfKind(CommandsAt(s, Offsets(s, 0)), kind)
  {
    WalkVisits(s, 0, kind);
  }

  /** The same for a packed list of commands, whatever follows it: the ones of the type, in list order. */
  lemma PackedIteration(cs: seq<Command>, s: seq<Byte>, kind: nat)
    requires AllStorable(cs) && cs != [] && Pack(cs) <= s && kind != CMD_END
    ensures Ends(s, 0) && First(s, kind) == Walk(s, 0, kind)
    ensures Visited(s, First(s, kind), kind) == OfKind(cs, kind)
  {
    UnpackUndoesPack(cs, s, 0);
    IterationIsFilter(s, kind);
  }

  lemma {:induction false} NotFoundIff(s: seq<Byte>, o: nat, kind: nat)
    requires kind != CMD_END
    ensures Walk(s, o, kind) == NotFound <==>
              Ends(s, o) && OfKind(CommandsAt(s, Offsets(s, o)), kind) == []
    decreases |s| - o
  {
    if HeaderAt(s, o) && Kind(s, o) != CMD_END {
      var p := Next(s, o);
      NotFoundIff(s, p, kind);
      if Ends(s, o) {
        FirstOfOffsets(s, o);
        var cs := CommandsAt(s, Offsets(s, o));
        assert cs[0] == CommandAt(s, o) && cs[1..] == CommandsAt(s, Offsets(s, p));
      }
    }
  }

  /** A store that begins with the end marker has no commands, yet the bytes behind the marker are searched, be
      they behind cmdLen or not: NULL is returned exactly if these end in a marker of their own, and hold no
      command of the type. s is all of the storage. */
  lemma EmptyStoreIff(s: seq<Byte>, kind: nat)
    requires HeaderAt(s, 0) && Kind(s, 0) == CMD_END && kind != CMD_END
    ensures First(s, kind) == NotFound <==>
              Ends(s, Next(s, 0)) && OfKind(CommandsAt(s, Offsets(s, Next(s, 0))), kind) == []
  {
    NotFoundIff(s, Next(s, 0), kind);
  }

  // ----- the store and what lies behind it -----

  /** The commands that lie in a store as a whole, up to its end marker if it has one. */
  function Own(b: seq<Byte>, o: nat): seq<Command>
    decreases |b| - o
  {
    if HeaderAt(b, o) && Kind(b, o) != CMD_END && Next(b, o) <= |b| then [CommandAt(b, o)] + Own(b, Next(b, o)) else []
  }

  /** The other commands of the walk over the storage: those that end behind the n bytes of the store. */
  function Stale(s: seq<Byte>, n: nat, o: nat): seq<Command>
    requires Ends(s, o)
    decreases |s| - o
  {
    if Kind(s, o) == CMD_END then []
    else if Next(s, o) <= n then Stale(s, n, Next(s, o))
    else CommandsAt(s, Offsets(s, o))
  }

  /** Where the end marker is that the walk meets. */
  function Marker(s: seq<Byte>, o: nat): (m: nat)
    requires Ends(s, o)
    ensures o <= m && HeaderAt(s, m)
    decreases |s| - o
  {
    if Kind(s, o) == CMD_END then o else Marker(s, Next(s, o))
  }

  lemma SameInStore(s: seq<Byte>, n: nat, o: nat)
    requires n <= |s| && HeaderAt(s[..n], o)
    ensures HeaderAt(s, o) && Kind(s[..n], o) == Kind(s, o) && Next(s[..n], o) == Next(s, o)
    ensures Next(s, o) <= n ==> CommandAt(s[..n], o) == CommandAt(s, o)
  {
    var b := s[..n];
    assert forall k :: 0 <= k < n ==> b[k] == s[k];
    assert b[o + 2..o + 6] == s[o + 2..o + 6];
    assert Next(s, o) <= n ==> b[o + HDR..Next(s, o)] == s[o + HDR..Next(s, o)];
  }

  lemma OwnStep(s: seq<Byte>, n: nat, o: nat)
    requires n <= |s| && HeaderAt(s, o)
    ensures Own(s[..n], o) ==
      if Kind(s, o) == CMD_END || Next(s, o) > n then [] else [CommandAt(s, o)] + Own(s[..n], Next(s, o))
  {
    hide Kind, CommandAt, Next;
    if HeaderAt(s[..n], o) { SameInStore(s, n, o); }
  }

  lemma {:induction false} Splits(s: seq<Byte>, n: nat, o: nat)
    requires Ends(s, o) && n <= |s|
    ensures CommandsAt(s, Offsets(s, o)) == Own(s[..n], o) + Stale(s, n, o)
    decreases |s| - o
  {
    hide Own, CommandAt, Kind, Next;
    OwnStep(s, n, o);
    if Kind(s, o) != CMD_END {
      FirstOfOffsets(s, o);
      if Next(s, o) <= n { Splits(s, n, Next(s, o)); }
    }
  }

  lemma {:induction false} OfKindConcat(a: seq<Command>, b: seq<Command>, kind: nat)
    ensures OfKind(a + b, kind) == OfKind(a, kind) + OfKind(b, kind)
  {
    if a == [] {
      assert a + b == b;
    } else {
      var s := a + b;
      assert s[0] == a[0] && s[1..] == a[1..] + b;
      OfKindConcat(a[1..], b, kind);
      var here := if a[0].kind == kind then [a[0]] else [];
      assert OfKind(s, kind) == here + OfKind(s[1..], kind);
      assert (here + OfKind(a[1..], kind)) + OfKind(b, kind) == here + (OfKind(a[1..], kind) + OfKind(b, kind));
    }
  }

  lemma {:induction false} StaleIff(s: seq<Byte>, n: nat, o: nat)
    requires Ends(s, o) && o <= n
    ensures Stale(s, n, o) == [] <==> Marker(s, o) <= n
    decreases |s| - o
  {
    if Kind(s, o) != CMD_END {
      FirstOfOffsets(s, o);
      if Next(s, o) <= n { StaleIff(s, n, Next(s, o)); }
    }
  }

  /** Asking for one type meets exactly the store's own commands of the type. s is all of the storage, and the
      store its first n bytes. */
  predicate IteratesOwn(s: seq<Byte>, n: nat, kind: nat)
    requires Ends(s, 0) && Kind(s, 0) != CMD_END && kind != CMD_END && n <= |s|
  {
    Visited(s, First(s, kind), kind) == OfKind(Own(s[..n], 0), kind)
  }

  /** For one type that is so exactly if the commands behind the store hold none of the type. */
  lemma OwnIterationIff(s: seq<Byte>, n: nat, kind: nat)
    requires Ends(s, 0) && Kind(s, 0) != CMD_END && kind != CMD_END && n <= |s|
    ensures IteratesOwn(s, n, kind) <==> OfKind(Stale(s, n, 0), kind) == []
  {
    IterationIsFilter(s, kind);
    Splits(s, n, 0);
    OfKindConcat(Own(s[..n], 0), Stale(s, n, 0), kind);
  }

  /** For all types, exactly if the end marker comes no later than the end of the store. */
  lemma AllTypesIff(s: seq<Byte>, n: nat)
    requires Ends(s, 0) && Kind(s, 0) != CMD_END && n <= |s|
    ensures (forall kind: nat :: kind != CMD_END ==> IteratesOwn(s, n, kind)) <==> Marker(s, 0) <= n
  {
    hide IteratesOwn, Marker, Own;
    StaleIff(s, n, 0);
    if Stale(s, n, 0) == [] {
      forall kind: nat | kind != CMD_END ensures IteratesOwn(s, n, kind) { OwnIterationIff(s, n, kind); }
    } else {
      var kind := Stale(s, n, 0)[0].kind;
      StaleKinds(s, n, 0);
      OwnIterationIff(s, n, kind);
      assert !IteratesOwn(s, n, kind);
    }
  }

  lemma {:induction false} StaleKinds(s: seq<Byte>, n: nat, o: nat)
    requires Ends(s, o)
    ensures Stale(s, n, o) != [] ==> Stale(s, n, o)[0].kind != CMD_END
    decreases |s| - o
  {
    if Kind(s, o) != CMD_END {
      if Next(s, o) <= n { StaleKinds(s, n, Next(s, o)); } else { FirstOfOffsets(s, o); }
    }
  }

  lemma {:induction false} EndsInStore(s: seq<Byte>, n: nat, o: nat)
    requires n <= |s|
    ensures Ends(s[..n], o) <==> Ends(s, o) && Marker(s, o) + HDR <= n
    decreases |s| - o
  {
    var b := s[..n];
    assert forall k :: 0 <= k < n ==> b[k] == s[k];
    if HeaderAt(s, o) && Kind(s, o) != CMD_END {
      if HeaderAt(b, o) { EndsInStore(s, n, Next(s, o)); }
    }
  }

  /** Validate reads all of the storage. It accepts a store exactly if the walk ends somewhere in the storage, and
      neither the store's own commands nor those behind it have more than 8 bytes; the store would be accepted
      for what it holds itself exactly if also its end marker lies in its n bytes. */
  lemma ValidatedIff(s: seq<Byte>, n: nat)
    requires n <= |s|
    ensures Passes(s, 0) <==> Ends(s, 0) && forall c :: c in Own(s[..n], 0) + Stale(s, n, 0) ==> |c.data| <= 8
    ensures Passes(s[..n], 0) <==>
              Ends(s, 0) && Marker(s, 0) + HDR <= n && forall c :: c in Own(s[..n], 0) ==> |c.data| <= 8
  {
    PassesIff(s, 0);
    PassesIff(s[..n], 0);
    EndsInStore(s, n, 0);
    if Ends(s, 0) { Splits(s, n, 0); }
    if Ends(s[..n], 0) {
      assert s[..n][..n] == s[..n];
      Splits(s[..n], n, 0);
      EndsInStore(s[..n], n, 0);
      StaleIff(s[..n], n, 0);
    }
  }

  // ----- the store -----

  /** What Parse demands of its caller: the bytes its own header announces. */
  predicate Announced(buff: seq<Byte>) {
    && |buff| > 0
    && (buff[0] == HDR_TYPE ==>
          |buff| >= CALC_HDR && (Word16(buff, 18) < STORAGE ==> |buff| >= CALC_HDR + Word16(buff, 18)))
  }

  predicate Accepted(buff: seq<Byte>)
    requires Announced(buff)
  {
    buff[0] == HDR_TYPE && 0 < Word16(buff, 18) < STORAGE
  }

  class CANDiagCalculator {
    const cmdStorage: array<Byte>
    var header: seq<Byte>            // CANDiagCalculatorHeader
    var dataPresence: bool
    var dataValidity: bool

    ghost predicate Valid()
      reads this
    {
      && cmdStorage.Length == STORAGE
      && |header| == CALC_HDR
      && (dataPresence ==> 0 < Word16(header, 18) < STORAGE)
    }

    /** The first cmdLen bytes of the storage. */
    ghost function Store(): seq<Byte>
      reads this, cmdStorage
      requires Valid() && dataPresence
    {
      cmdStorage[..Word16(header, 18)]
    }

    constructor ()
      ensures Valid() && !dataPresence && !dataValidity && fresh(cmdStorage)
    {
      cmdStorage := new Byte[STORAGE](_ => 0);
      header := seq(CALC_HDR, _ => 0);
      dataPresence, dataValidity := false, false;
    }

    /** The store becomes the bytes after the header, or the calculator is left without one. What an earlier
        store has left behind those bytes stays. */
    method Parse(buff: seq<Byte>) returns (r: int)
      requires Valid() && Announced(buff)
      modifies this, cmdStorage
      ensures Valid() && !dataValidity && dataPresence == Accepted(buff)
      ensures r == if Accepted(buff) then CALC_HDR + Word16(buff, 18) else -1
      ensures header == if buff[0] == HDR_TYPE then buff[..CALC_HDR] else old(header)
      ensures cmdStorage[..] ==
        if Accepted(buff) then
          var n := Word16(buff, 18); buff[CALC_HDR..CALC_HDR + n] + old(cmdStorage[..])[n..]
        else old(cmdStorage[..])
      ensures Accepted(buff) ==> Store() == buff[CALC_HDR..CALC_HDR + Word16(buff, 18)]
    {
      dataPresence := false;
      dataValidity := false;
      if buff[0] == HDR_TYPE {
        header := buff[..CALC_HDR];
        var cmdLen := Word16(header, 18);
        if cmdLen > 0 {
          if cmdLen < STORAGE {
            Memcpy(cmdStorage, 0, buff[CALC_HDR..CALC_HDR + cmdLen]);
            dataPresence := true;
            return cmdLen + CALC_HDR;
          }
        }
      }
      return -1;
    }

    /** type and size of the header at offset o: no byte at or past limit is read. */
    method ReadHeader(o: nat, ghost limit: nat) returns (t: nat, s: Byte)
      requires Valid() && limit <= STORAGE && HeaderAt(cmdStorage[..limit], o)
      ensures t == Kind(cmdStorage[..limit], o) && o + HDR + s == Next(cmdStorage[..limit], o)
    {
      var lo: int, hi: int := cmdStorage[o], cmdStorage[o + 1];
      t := lo + 0x100 * hi;
      s := cmdStorage[o + 6];
    }

    /** The whole store is accepted or refused; a missing store changes no flag. limit is any bound on what is
        read that the walk over the commands respects: cmdLen for a store with an end marker of its own. */
    method Validate(ghost limit: nat) returns (ok: bool)
      requires Valid() && limit <= STORAGE && (dataPresence ==> Checkable(cmdStorage[..limit], 0))
      modifies `dataValidity
      ensures Valid() && ok == (dataPresence && Passes(cmdStorage[..limit], 0))
      ensures dataValidity == if dataPresence then ok else old(dataValidity)
    {
      if dataPresence {
        dataValidity := true;
        var o := 0;
        while true
          invariant Valid() && dataPresence && dataValidity && Checkable(cmdStorage[..limit], o)
          invariant Passes(cmdStorage[..limit], 0) == Passes(cmdStorage[..limit], o)
          decreases STORAGE - o
        {
          var t, s := ReadHeader(o, limit);
          if t == CMD_END {
            break;
          } else if s > 8 {
            dataValidity := false;
            return false;
          }
          o := o + HDR + s;
        }
        dataValidity := true;
        return true;
      }
      return false;
    }

    /** The next header of the type after the one at offset o; NotFound for NULL. */
    method NextCommand(o: nat, cmdType: nat, ghost limit: nat) returns (r: Search)
      requires Valid() && limit <= STORAGE && HeaderAt(cmdStorage[..limit], o)
      requires Walk(cmdStorage[..limit], Next(cmdStorage[..limit], o), cmdType) != Outside
      ensures r == Walk(cmdStorage[..limit], Next(cmdStorage[..limit], o), cmdType)
    {
      ghost var bytes := cmdStorage[..limit];
      ghost var goal := Walk(bytes, Next(bytes, o), cmdType);
      var t, s := ReadHeader(o, limit);
      var p := o;
      while true
        invariant HeaderAt(bytes, p) && p + HDR + s == Next(bytes, p) && goal == Walk(bytes, p + HDR + s, cmdType)
        decreases STORAGE - p
      {
        p := p + HDR + s;
        t, s := ReadHeader(p, limit);
        if t == cmdType {
          return Found(p);
        } else if t == CMD_END {
          break;
        }
      }
      return NotFound;
    }

    method FirstCommand(cmdType: nat, ghost limit: nat) returns (r: Search)
      requires Valid() && limit <= STORAGE && First(cmdStorage[..limit], cmdType) != Outside
      ensures r == First(cmdStorage[..limit], cmdType)
    {
      var t, _ := ReadHeader(0, limit);
      if t == cmdType {
        return Found(0);
      }
      r := NextCommand(0, cmdType, limit);
    }
  }

  // ----- a store that is emptied -----

  /** What Parse is given for a body of packed commands. */
  function Announce(body: seq<Byte>): (buff: seq<Byte>)
    requires 0 < |body| < STORAGE
    ensures Announced(buff) && Accepted(buff) && Word16(buff, 18) == |body|
    ensures buff[CALC_HDR..CALC_HDR + |body|] == body
  {
    [HDR_TYPE] + seq(17, _ => 0) + [|body| % 0x100, |body| / 0x100] + body
  }

  lemma PackTwo(c: Command, d: Command)
    requires Storable(c) && Storable(d) && c.data == []
    ensures Pack([c, d]) == Header(c.kind, c.id, 0) + (Header(d.kind, d.id, |d.data|) + d.data + Pack([]))
    ensures |Pack([c, d])| == 3 * HDR + |d.data|
  {
    hide Header;
    assert [c, d][1..] == [d] && [d][1..] == [];
    assert Pack([d]) == Header(d.kind, d.id, |d.data|) + d.data + Pack([]);
  }

  method ParsePacked(d: CANDiagCalculator, cs: seq<Command>)
    requires d.Valid() && AllStorable(cs) && |Pack(cs)| < STORAGE
    modifies d, d.cmdStorage
    ensures d.Valid() && d.dataPresence && d.Store() == Pack(cs)
    ensures d.cmdStorage[..] == Pack(cs) + old(d.cmdStorage[..])[|Pack(cs)|..]
  {
    hide Pack, Announce, Announced, Accepted, Word16;
    var n := d.Parse(Announce(Pack(cs)));
  }

  /** A calculator with two commands is parsed, and then one whose store is an end marker and nothing else. The
      empty store is valid, and a search in it finds the second command of the other calculator. */
  method StaleCommand(d: CANDiagCalculator, first: Command, second: Command) returns (r: Search)
    requires d.Valid() && Storable(first) && Storable(second) && first.data == [] && |second.data| <= 8
    modifies d, d.cmdStorage
    ensures d.Valid() && d.dataPresence && d.dataValidity && d.Store() == Pack([])
    ensures r == First(d.cmdStorage[..], second.kind) == Found(HDR)
  {
    hide Header, Pack, First, Walk, Passes, Checkable;
    PackTwo(first, second);
    EmptyPack();
    ParsePacked(d, [first, second]);
    ghost var was := d.cmdStorage[..];
    ParsePacked(d, []);
    LeftBehind(was, d.cmdStorage[..], first, second);
    assert d.cmdStorage[..HDR] == d.cmdStorage[..][..HDR];
    var valid := d.Validate(HDR);
    assert d.cmdStorage[..STORAGE] == d.cmdStorage[..];
    r := d.FirstCommand(second.kind, STORAGE);
  }

  lemma EmptyPack()
    ensures Pack([]) == Header(CMD_END, [0, 0, 0, 0], 0) && Passes(Pack([]), 0) && Checkable(Pack([]), 0)
  {
  }

  /** What is found behind the marker is the second command of the store before. */
  lemma LeftBehind(was: seq<Byte>, s: seq<Byte>, first: Command, second: Command)
    requires Storable(first) && Storable(second) && first.data == []
    requires Pack([first, second]) <= was && s == Pack([]) + was[HDR..]
    ensures First(s, second.kind) == Found(HDR) && s[..HDR] == Pack([])
  {
    PackTwo(first, second);
    EmptyPack();
    hide Header, Pack, First, Walk, Passes, Checkable;
    var head := Header(second.kind, second.id, |second.data|);
    var body := head + second.data + Pack([]);
    Behind(was, s, Header(first.kind, first.id, 0), Pack([]), body);
    HeaderRead(s, 0, Pack([]), [], []);
    HeaderRead(s, HDR, head, second.data, Pack([]));
    FoundBehind(s, second.kind);
  }

  /** A marker written over a header of the same size leaves what was behind it. */
  lemma Behind(was: seq<Byte>, s: seq<Byte>, head: seq<Byte>, mark: seq<Byte>, body: seq<Byte>)
    requires |head| == |mark| == HDR && head + body <= was && s == mark + was[HDR..]
    ensures s[0..HDR] == mark && HDR + |body| <= |s| && s[HDR..HDR + |body|] == body
  {
    assert was[..HDR + |body|] == head + body;
    assert was[HDR..HDR + |body|] == (head + body)[HDR..] == body;
    assert s[HDR..HDR + |body|] == was[HDR..HDR + |body|];
  }

  lemma FoundBehind(s: seq<Byte>, kind: nat)
    requires HeaderAt(s, HDR) && Kind(s, 0) == CMD_END && Next(s, 0) == HDR && Kind(s, HDR) == kind != CMD_END
    ensures First(s, kind) == Found(HDR)
  {
  }

  // ----- a store without an end marker -----

  lemma {:induction false} PassesIsCheckable(s: seq<Byte>, o: nat)
    requires Passes(s, o)
    ensures Checkable(s, o)
    decreases |s| - o
  {
    if Kind(s, o) != CMD_END { PassesIsCheckable(s, Next(s, o)); }
  }

  /** One command written over the first of two stored ones: the two are now this one and the second. */
  lemma Overwritten(was: seq<Byte>, s: seq<Byte>, first: Command, second: Command, only: Command)
    requires Storable(first) && Storable(second) && Storable(only) && first.data == [] && only.data == []
    requires Pack([first, second]) <= was && s == Header(only.kind, only.id, 0) + was[HDR..]
    ensures |Pack([only, second])| <= |s| && s[..|Pack([only, second])|] == Pack([only, second])
  {
    PackTwo(first, second);
    PackTwo(only, second);
    var body := Header(second.kind, second.id, |second.data|) + second.data + Pack([]);
    hide Header, Pack, Storable;
    Behind(was, s, Header(first.kind, first.id, 0), Header(only.kind, only.id, 0), body);
    assert s[..HDR + |body|] == s[0..HDR] + s[HDR..HDR + |body|];
  }

  /** What the storage with these two commands at its beginning is taken for, if the store is the first alone. */
  lemma Unended(s: seq<Byte>, second: Command, only: Command)
    requires Storable(second) && Storable(only) && only.data == []
    requires |Pack([only, second])| <= |s| && s[..|Pack([only, second])|] == Pack([only, second])
    requires |second.data| <= 8 && only.kind != second.kind
    ensures HDR <= |s| && Passes(s, 0) && Checkable(s, 0) && Own(s[..HDR], 0) == [only]
    ensures First(s, second.kind) == Found(HDR)
  {
    PackTwo(only, second);
    var head, behind := Header(only.kind, only.id, 0), Header(second.kind, second.id, |second.data|);
    var cs := [only, second];
    hide Header, Pack, Passes, Checkable, Ends, First, Own, Kind, Next, CommandsAt, Offsets;
    PackedPasses(cs, s);
    TwoHeaders(s, head, behind, second.data, Pack([]));
    OnlyOne(s, cs);
    SecondFound(s, second.kind);
  }

  lemma PackedPasses(cs: seq<Command>, s: seq<Byte>)
    requires AllStorable(cs) && |Pack(cs)| <= |s| && s[..|Pack(cs)|] == Pack(cs)
    requires forall i :: 0 <= i < |cs| ==> |cs[i].data| <= 8
    ensures Ends(s, 0) && CommandsAt(s, Offsets(s, 0)) == cs && Passes(s, 0) && Checkable(s, 0)
  {
    hide Pack, Passes, Checkable, Ends, CommandsAt, Offsets;
    assert s[0..0 + |Pack(cs)|] == Pack(cs);
    UnpackUndoesPack(cs, s, 0);
    PassesIff(s, 0);
    PassesIsCheckable(s, 0);
  }

  lemma TwoHeaders(s: seq<Byte>, head: seq<Byte>, behind: seq<Byte>, data: seq<Byte>, tail: seq<Byte>)
    requires |head| == |behind| == HDR && head[6] == 0 && behind[6] == |data|
    requires |head + (behind + data + tail)| <= |s|
    requires s[..|head + (behind + data + tail)|] == head + (behind + data + tail)
    ensures HDR + HDR <= |s| && Kind(s, 0) == Word16(head, 0) && Kind(s, HDR) == Word16(behind, 0) && Next(s, 0) == HDR
  {
    var body := behind + data + tail;
    assert head + [] + body == head + body;
    HeaderRead(s, 0, head, [], body);
    HeaderRead(s, HDR, behind, data, tail);
  }

  lemma OnlyOne(s: seq<Byte>, cs: seq<Command>)
    requires Ends(s, 0) && Kind(s, 0) != CMD_END && Next(s, 0) == HDR && CommandsAt(s, Offsets(s, 0)) == cs
    ensures cs != [] && Own(s[..HDR], 0) == [cs[0]]
  {
    FirstOfOffsets(s, 0);
    var b := s[..HDR];
    assert forall k :: 0 <= k < HDR ==> b[k] == s[k];
    assert b[2..6] == s[2..6] && b[HDR..HDR] == s[HDR..HDR] == [];
    assert CommandAt(b, 0) == CommandAt(s, 0);
    assert Own(b, HDR) == [];
  }

  lemma SecondFound(s: seq<Byte>, kind: nat)
    requires HeaderAt(s, HDR) && Kind(s, 0) != kind && Next(s, 0) == HDR && Kind(s, HDR) == kind
    ensures First(s, kind) == Found(HDR)
  {
  }

  /** A calculator with two commands is parsed, and then one whose store is a single command without an end marker.
      The store is accepted, and a search in it finds the second command of the other calculator. */
  method UnendedStore(d: CANDiagCalculator, first: Command, second: Command, only: Command) returns (r: Search)
    requires d.Valid() && Storable(first) && Storable(second) && Storable(only) && only.kind != second.kind
    requires first.data == [] && only.data == [] && |second.data| <= 8
    modifies d, d.cmdStorage
    ensures d.Valid() && d.dataPresence && d.dataValidity && Own(d.Store(), 0) == [only]
    ensures r == First(d.cmdStorage[..], second.kind) == Found(HDR)
  {
    hide Header, Pack, First, Walk, Passes, Checkable, Ends, Own, Announce, Announced, Accepted, Word16;
    PackTwo(first, second);
    ParsePacked(d, [first, second]);
    ghost var was := d.cmdStorage[..];
    var n := d.Parse(Announce(Header(only.kind, only.id, 0)));
    ghost var s := d.cmdStorage[..];
    Overwritten(was, s, first, second, only);
    Unended(s, second, only);
    assert d.Store() == s[..HDR];
    assert d.cmdStorage[..STORAGE] == s;
    var valid := d.Validate(STORAGE);
    r := d.FirstCommand(second.kind, STORAGE);
  }
}
