/** Copy-on-write handles: `sharable`, a reference-counted payload that is copied before it is written. */
module Sharable {
  import opened Common

  /** What a `data` pointer holds.  A new control block starts with an indeterminate one. */
  datatype Slot = Indeterminate | Null | Object(p: Payload)

  /** What a reader of a handle sees; a handle whose block was moved away has none. */
  datatype View = Moved | Garbage | Empty | Holds(value: Value)

  /** An object of the template parameter's type.  `owner` is the block that has to delete it. */
  class Payload {
    var value: Value
    ghost var owner: Control?
    ghost var deleted: nat

    constructor (value: Value)
      ensures this.value == value && owner == null && deleted == 0
    {
      this.value := value;
      owner, deleted := null, 0;
    }
  }

  /** `ctrl_t`.  `handles` are the sharables that point to it. */
  class Control {
    var users: int
    var data: Slot
    ghost var handles: set<Handle>
    ghost var deleted: nat

    constructor ()
      ensures users == 0 && data == Indeterminate && handles == {} && deleted == 0
    {
      users, data, handles, deleted := 0, Indeterminate, {}, 0;
    }
  }

  /** `sharable` itself. */
  class Handle {
    var control: Control?

    constructor ()
      ensures control == null
    {
      control := null;
    }

    ghost function View(): View
      reads this, control, if control != null && control.data.Object? then {control.data.p} else {}
    {
      if control == null then Moved
      else
        match control.data
        case Indeterminate => Garbage
        case Null => Empty
        case Object(p) => Holds(p.value)
    }

    /** What this handle alone may change: itself, its block and its payload. */
    ghost function Reach(): set<object>
      reads this, control
    {
      {this} + (if control == null then {} else
                  {control} + if control.data.Object? then {control.data.p} else {})
    }
  }

  /** All handles of one program, with every block and payload they ever had. */
  class Program {
    ghost var handles: set<Handle>
    ghost var controls: set<Control>
    ghost var payloads: set<Payload>

    /** Users are counted, and a block without users was deleted once. */
    ghost predicate ControlOk(c: Control)
      reads this, c, handles, payloads
    {
      && (forall h | h in c.handles :: h in handles && h.control == c)
      && if c.handles == {} then
           c.deleted == 1
         else
           && c.deleted == 0 && c.users == |c.handles|
           && !c.data.Indeterminate?
           && (c.data.Object? ==> c.data.p in payloads && c.data.p.owner == c)
    }

    /** A payload belongs to one block with users, or it was deleted once. */
    ghost predicate PayloadOk(p: Payload)
      reads this, p, controls
    {
      if p.owner == null then p.deleted == 1
      else p.deleted == 0 && p.owner in controls && p.owner.handles != {} && p.owner.data == Object(p)
    }

    ghost predicate Valid()
      reads this, handles, controls, payloads
    {
      && (forall c | c in controls :: ControlOk(c))
      && (forall p | p in payloads :: PayloadOk(p))
      && (forall h | h in handles && h.control != null :: h.control in controls && h in h.control.handles)
    }

    constructor ()
      ensures Valid() && handles == {} && controls == {} && payloads == {}
    {
      handles, controls, payloads := {}, {}, {};
    }

    /** No handle but `h` can tell the difference. */
    twostate predicate OthersKept(new h: Handle)
      reads *
    {
      forall g | g in old(handles) && g != h :: g in handles && g.View() == old(g.View())
    }

    lemma Facts(h: Handle)
      requires Valid() && h in handles && h.control != null
      ensures h.control in controls && h in h.control.handles && ControlOk(h.control) && !h.control.data.Indeterminate?
      ensures h.control.users == |h.control.handles| && h.control.users >= 1 && h.control.deleted == 0
      ensures if h.control.users <= 1 then h.control.handles == {h} else h.control.handles - {h} != {}
      ensures h.control.data.Object? ==>
        h.control.data.p in payloads && h.control.data.p.owner == h.control && PayloadOk(h.control.data.p)
    {
      var rest := h.control.handles - {h};
      assert |rest| == |h.control.handles| - 1;
      if h.control.users <= 1 {
        assert rest == {};
        assert h.control.handles == {h} + rest;
      }
    }

    /** What a handle uses is there, and counts it. */
    ghost predicate UsesOk(h: Handle)
      requires h in handles
      reads this, handles, controls, payloads
    {
      h.control != null ==>
        && h.control in controls && h in h.control.handles && ControlOk(h.control)
        && (h.control.data.Object? ==> PayloadOk(h.control.data.p))
    }

    twostate predicate SameSets()
      reads this
    {
      handles == old(handles) && controls == old(controls) && payloads == old(payloads)
    }

    /** Every block and every payload there ever was is still accounted for. */
    twostate predicate NothingForgotten()
      reads this
    {
      old(controls) <= controls && old(payloads) <= payloads
    }

    twostate predicate SameBlock(d: Control)
      reads d
    {
      d.users == old(d.users) && d.data == old(d.data) && d.handles == old(d.handles) && d.deleted == old(d.deleted)
    }

    twostate predicate SamePayload(p: Payload)
      reads p
    {
      p.value == old(p.value) && p.owner == old(p.owner) && p.deleted == old(p.deleted)
    }

    // ----- The steps every operation is made of

    /** The handle stops using a block that others still use. */
    method Leave(h: Handle)
      requires Valid() && h in handles && h.control != null && h.control.users > 1
      modifies h, h.control
      ensures Valid() && OthersKept(h) && h.control == null
      ensures old(h.control).data == old(h.control.data) && old(h.control).deleted == 0
    {
      Facts(h);
      var c := h.control;
      c.users := c.users - 1;
      c.handles := c.handles - {h};
      h.control := null;
      LeftKeepsValid(h, c);
    }

    twostate predicate Left(h: Handle, new c: Control)
      reads *
    {
      && SameSets() && h in handles && c == old(h.control) && h.control == null
      && c.users == old(c.users) - 1 && c.handles == old(c.handles) - {h} && c.handles != {}
      && c.data == old(c.data) && c.deleted == old(c.deleted)
      && (forall g | g in handles && g != h :: g.control == old(g.control))
      && (forall d | d in controls && d != c :: SameBlock(d))
      && (forall p | p in payloads :: SamePayload(p))
    }

    twostate lemma LeftKeepsValid(h: Handle, new c: Control)
      requires old(Valid()) && Left(h, c)
      ensures Valid() && OthersKept(h)
    {
      assert old(UsesOk(h));
      assert |old(c.handles) - {h}| == |old(c.handles)| - 1;
      assert ControlOk(c);
      forall d | d in old(controls) && d != c ensures ControlOk(d) {
        assert old(ControlOk(d));
      }
      forall p | p in old(payloads) ensures PayloadOk(p) {
        assert old(PayloadOk(p));
      }
      forall g | g in old(handles) && g != h ensures g in handles && g.View() == old(g.View()) {
        assert old(UsesOk(g));
      }
    }

    /** The handle was the last user of its block: payload and block are deleted. */
    method Delete(h: Handle)
      requires Valid() && h in handles && h.control != null && h.control.users <= 1
      modifies h.Reach()
      ensures Valid() && OthersKept(h) && h.control == null
      ensures old(h.control).deleted == 1
      ensures old(h.control.data).Object? ==> old(h.control.data).p.deleted == 1
    {
      Facts(h);
      var c := h.control;
      if c.data.Object? {
        var p := c.data.p;
        p.deleted := p.deleted + 1;
        p.owner := null;
      }
      c.deleted := c.deleted + 1;
      c.handles := {};
      h.control := null;
      DeletedKeepsValid(h, c);
    }

    twostate predicate Deleted(h: Handle, new c: Control)
      reads *
    {
      && SameSets() && h in handles && c == old(h.control) && old(c.handles) == {h} && h.control == null
      && c.handles == {} && c.deleted == 1
      && (forall g | g in handles && g != h :: g.control == old(g.control))
      && (forall d | d in controls && d != c :: SameBlock(d))
      && (forall p | p in payloads && old(p.owner) != c :: SamePayload(p))
      && (forall p | p in payloads && old(p.owner) == c :: p.owner == null && p.deleted == 1)
    }

    twostate lemma DeletedKeepsValid(h: Handle, new c: Control)
      requires old(Valid()) && Deleted(h, c)
      ensures Valid() && OthersKept(h)
    {
      assert old(UsesOk(h));
      assert ControlOk(c);
      forall d | d in old(controls) && d != c ensures ControlOk(d) {
        assert old(ControlOk(d));
      }
      forall p | p in old(payloads) ensures PayloadOk(p) {
        assert old(PayloadOk(p));
      }
      forall g | g in old(handles) && g != h ensures g in handles && g.View() == old(g.View()) {
        assert old(UsesOk(g));
      }
    }

    /** Whether `data` is null or one more payload, not among the ones there were. */
    static ghost predicate Unowned(data: Slot, known: set<Payload>) {
      data.Null? || (data.Object? && data.p !in known)
    }

    /** A new block with one user.  It owns its payload unless the program already had that. */
    method Attach(h: Handle, data: Slot)
      requires Valid() && h in handles && h.control == null
      requires data.Object? && data.p !in payloads ==> data.p.deleted == 0
      modifies this`controls, this`payloads, h, if data.Object? then {data.p} else {}
      ensures Valid() <==> Unowned(data, old(payloads))
      ensures OthersKept(h) && fresh(h.control) && h.control.data == data && h.control.users == 1
      ensures data.Object? ==> data.p.value == old(data.p.value) && data.p.deleted == old(data.p.deleted)
      ensures controls == old(controls) + {h.control}
      ensures payloads == old(payloads) + (if data.Object? then {data.p} else {})
    {
      var c := new Control();
      c.users := 1;
      c.data := data;
      c.handles := {h};
      h.control := c;
      controls := controls + {c};
      if data.Object? && data.p !in payloads {
        payloads := payloads + {data.p};
        data.p.owner := c;
      }
      AttachedKeepsValid(h, c);
    }

    twostate predicate Attached(h: Handle, new c: Control)
      reads *
    {
      && handles == old(handles) && h in handles && old(h.control) == null && h.control == c
      && fresh(c) && c.users == 1 && c.handles == {h} && c.deleted == 0
      && controls == old(controls) + {c}
      && payloads == old(payloads) + (if c.data.Object? then {c.data.p} else {})
      && (c.data.Object? && c.data.p !in old(payloads) ==> c.data.p.owner == c && c.data.p.deleted == 0)
      && (forall g | g in handles && g != h :: g.control == old(g.control))
      && (forall d | d in old(controls) :: SameBlock(d))
      && (forall p | p in old(payloads) :: SamePayload(p))
    }

    twostate lemma AttachedKeepsValid(h: Handle, new c: Control)
      requires old(Valid()) && Attached(h, c)
      ensures Valid() <==> Unowned(c.data, old(payloads))
      ensures OthersKept(h)
    {
      AttachedBlocksOk(h, c);
      AttachedPayloadsOk(h, c);
      AttachedOthersKept(h, c);
    }

    twostate lemma AttachedBlocksOk(h: Handle, new c: Control)
      requires old(Valid()) && Attached(h, c)
      ensures forall d | d in old(controls) :: ControlOk(d)
      ensures ControlOk(c) <==> Unowned(c.data, old(payloads))
    {
      if c.data.Object? && c.data.p in old(payloads) {
        var q := c.data.p;
        assert old(PayloadOk(q));
      }
      forall d | d in old(controls) ensures ControlOk(d) {
        assert old(ControlOk(d));
      }
    }

    twostate lemma AttachedPayloadsOk(h: Handle, new c: Control)
      requires old(Valid()) && Attached(h, c)
      ensures forall p | p in payloads :: PayloadOk(p)
    {
      forall p | p in old(payloads) ensures PayloadOk(p) {
        assert old(PayloadOk(p));
      }
    }

    twostate lemma AttachedOthersKept(h: Handle, new c: Control)
      requires old(Valid()) && Attached(h, c)
      ensures OthersKept(h)
      ensures forall g | g in handles && g.control != null :: g.control in controls && g in g.control.handles
    {
      forall g | g in old(handles) && g != h
        ensures g in handles && g.View() == old(g.View())
        ensures g.control != null ==> g.control in controls && g in g.control.handles
      {
        assert old(UsesOk(g));
      }
    }

    /** One more user of a block in use. */
    method Join(h: Handle, c: Control)
      requires Valid() && h in handles && h.control == null && c in controls && c.handles != {}
      modifies h, c
      ensures Valid() && OthersKept(h) && h.control == c && c.data == old(c.data)
    {
      c.users := c.users + 1;
      c.handles := c.handles + {h};
      h.control := c;
      JoinedKeepsValid(h, c);
    }

    twostate predicate Joined(h: Handle, new c: Control)
      reads *
    {
      && SameSets() && h in handles && old(h.control) == null && h.control == c
      && c in controls && old(c.handles) != {} && c.handles == old(c.handles) + {h} && c.users == old(c.users) + 1
      && c.data == old(c.data) && c.deleted == old(c.deleted)
      && (forall g | g in handles && g != h :: g.control == old(g.control))
      && (forall d | d in controls && d != c :: SameBlock(d))
      && (forall p | p in payloads :: SamePayload(p))
    }

    twostate lemma JoinedKeepsValid(h: Handle, new c: Control)
      requires old(Valid()) && Joined(h, c)
      ensures Valid() && OthersKept(h)
    {
      assert old(ControlOk(c));
      assert h !in old(c.handles) && |old(c.handles) + {h}| == |old(c.handles)| + 1;
      assert ControlOk(c);
      forall d | d in old(controls) && d != c ensures ControlOk(d) {
        assert old(ControlOk(d));
      }
      forall p | p in old(payloads) ensures PayloadOk(p) {
        assert old(PayloadOk(p));
      }
      forall g | g in old(handles) && g != h ensures g in handles && g.View() == old(g.View()) {
        assert old(UsesOk(g));
      }
    }

    /** The block of `from`, which then has none. */
    method Take(h: Handle, from: Handle)
      requires Valid() && h in handles && from in handles && h != from && h.control == null && from.control != null
      modifies h, from, from.control
      ensures Valid() && h.control == old(from.control) && from.control == null
      ensures h.View() == old(from.View())
      ensures forall g | g in handles && g != h && g != from :: g.View() == old(g.View())
    {
      Facts(from);
      var c := from.control;
      c.handles := c.handles - {from} + {h};
      h.control := c;
      from.control := null;
      TakenKeepsValid(h, from, c);
    }

    twostate predicate Taken(h: Handle, new from: Handle, new c: Control)
      reads *
    {
      && SameSets() && h in handles && from in handles && h != from
      && old(h.control) == null && h.control == c && old(from.control) == c && from.control == null
      && c in controls && c.handles == old(c.handles) - {from} + {h}
      && c.users == old(c.users) && c.data == old(c.data) && c.deleted == old(c.deleted)
      && (forall g | g in handles && g != h && g != from :: g.control == old(g.control))
      && (forall d | d in controls && d != c :: SameBlock(d))
      && (forall p | p in payloads :: SamePayload(p))
    }

    twostate lemma TakenKeepsValid(h: Handle, new from: Handle, new c: Control)
      requires old(Valid()) && Taken(h, from, c)
      ensures Valid()
      ensures h.View() == old(from.View())
      ensures forall g | g in handles && g != h && g != from :: g.View() == old(g.View())
    {
      TakenBlockOk(h, from, c);
      forall d | d in old(controls) && d != c ensures ControlOk(d) {
        assert old(ControlOk(d));
      }
      forall p | p in old(payloads) ensures PayloadOk(p) {
        assert old(PayloadOk(p));
      }
      forall g | g in handles && g != h && g != from ensures g.View() == old(g.View()) {
        assert old(UsesOk(g));
      }
    }

    twostate lemma TakenBlockOk(h: Handle, new from: Handle, new c: Control)
      requires old(Valid()) && Taken(h, from, c)
      ensures ControlOk(c) && c.handles != {} && old(c.handles) != {}
    {
      assert old(h !in c.handles && from in c.handles && ControlOk(c));
      assert |old(c.handles) - {from}| == |old(c.handles)| - 1;
      assert |old(c.handles) - {from} + {h}| == |old(c.handles)|;
    }

    /** A handle object comes into being, still without a block. */
    method Enter() returns (h: Handle)
      requires Valid()
      modifies this`handles
      ensures Valid() && fresh(h) && h.control == null && handles == old(handles) + {h} && OthersKept(h)
    {
      h := new Handle();
      handles := handles + {h};
    }

    // ----- The operations

    /** `release_control` */
    method Release(h: Handle)
      requires Valid() && h in handles
      modifies h.Reach()
      ensures Valid() && OthersKept(h) && h.control == null
    {
      if h.control != null {
        Facts(h);
        if h.control.users > 1 {
          Leave(h);
        } else {
          Delete(h);
        }
      }
    }

    /** The virtual `copy`: a new object of the same value. */
    method Copy(data: Slot) returns (r: Slot)
      requires !data.Indeterminate?
      ensures r.Object? <==> data.Object?
      ensures !r.Indeterminate?
      ensures r.Object? ==> fresh(r.p) && r.p.value == data.p.value && r.p.owner == null && r.p.deleted == 0
    {
      match data {
        case Null => r := Null;
        case Object(p) =>
          var q := new Payload(p.value);
          r := Object(q);
      }
    }

    /** `modify`: afterwards the handle has a block of its own, and its value is the same. */
    method Modify(h: Handle) returns (changed: bool)
      requires Valid() && h in handles && h.control != null
      modifies this`controls, this`payloads, h, h.control
      ensures NothingForgotten()
      ensures Valid() && OthersKept(h) && handles == old(handles)
      ensures h.control != null && h.control.users == 1 && h.View() == old(h.View())
      ensures changed <==> old(h.control.users) > 1
      ensures if changed then fresh(h.control) && (h.control.data.Object? ==> fresh(h.control.data.p))
              else h.control == old(h.control) && h.control.data == old(h.control.data)
      ensures old(h.control).data == old(h.control.data)
    {
      Facts(h);
      if h.control.users > 1 {
        Unshare(h);
        changed := true;
      } else {
        changed := false;
      }
    }

    method Unshare(h: Handle)
      requires Valid() && h in handles && h.control != null && h.control.users > 1
      modifies this`controls, this`payloads, h, h.control
      ensures NothingForgotten()
      ensures Valid() && OthersKept(h) && handles == old(handles)
      ensures fresh(h.control) && h.control.users == 1 && h.View() == old(h.View())
      ensures h.control.data.Object? ==> fresh(h.control.data.p)
      ensures old(h.control).data == old(h.control.data)
    {
      Facts(h);
      var next := Copy(h.control.data);
      Depart(h, next);
    }

    /** To a new block, away from one that others use. */
    method Depart(h: Handle, data: Slot)
      requires Valid() && h in handles && h.control != null && h.control.users > 1 && !data.Indeterminate?
      requires data.Object? && data.p !in payloads ==> data.p.deleted == 0
      modifies this`controls, this`payloads, h, h.control, if data.Object? then {data.p} else {}
      ensures Valid() <==> Unowned(data, old(payloads))
      ensures OthersKept(h) && handles == old(handles)
      ensures fresh(h.control) && h.control.users == 1 && h.control.data == data
      ensures data.Object? ==> data.p.value == old(data.p.value) && data.p.deleted == old(data.p.deleted)
      ensures old(h.control).data == old(h.control.data) && old(h.control).deleted == 0
      ensures controls == old(controls) + {h.control}
      ensures payloads == old(payloads) + (if data.Object? then {data.p} else {})
    {
      Leave(h);
      Attach(h, data);
    }

    /** A write through the pointer that the non-const `data` returns: no other handle sees it. */
    method Write(h: Handle, value: Value)
      requires Valid() && h in handles && h.control != null && h.control.data.Object?
      modifies this`controls, this`payloads, h.Reach()
      ensures NothingForgotten()
      ensures Valid() && OthersKept(h) && handles == old(handles)
      ensures h.View() == Holds(value) && h.control != null && h.control.data.Object?
      ensures if old(h.control.users) > 1 then fresh(h.control) && fresh(h.control.data.p)
              else h.control == old(h.control) && h.control.data == old(h.control.data)
      ensures old(h.control).data == old(h.control.data)
    {
      var _ := Modify(h);
      label Own:
      Facts(h);
      h.control.data.p.value := value;
      WrittenKeepsValid@Own(h);
    }

    twostate predicate Written(h: Handle)
      reads *
    {
      && SameSets() && h in handles && h.control != null && h.control.users == 1 && h.control.data.Object?
      && (forall g | g in handles :: g.control == old(g.control))
      && (forall d | d in controls :: SameBlock(d))
      && (forall p | p in payloads ::
            p.owner == old(p.owner) && p.deleted == old(p.deleted) && (p != h.control.data.p ==> SamePayload(p)))
    }

    twostate lemma WrittenKeepsValid(h: Handle)
      requires old(Valid()) && Written(h)
      ensures Valid() && OthersKept(h)
    {
      Facts(h);
    }

    /** `data(ndata)`: the handle's old payload goes if nobody else uses it.  All is well exactly if the new
        one is null or a payload that the program did not have yet; otherwise it has two owners, or it was
        deleted and is still used. */
    method SetData(h: Handle, data: Slot)
      requires Valid() && h in handles && !data.Indeterminate?
      requires data.Object? && data.p !in payloads ==> data.p.deleted == 0
      modifies this`controls, this`payloads, h.Reach(), if data.Object? then {data.p} else {}
      ensures Valid() <==> data.Null? || data.p !in old(payloads)
      ensures OthersKept(h) && handles == old(handles) && h.control != null && controls == old(controls) + {h.control}
      ensures payloads == old(payloads) + (if data.Object? then {data.p} else {})
      ensures h.control.data == data && h.View() == if data.Object? then Holds(old(data.p.value)) else Empty
      ensures if old(h.control) == null || old(h.control.users) > 1 then fresh(h.control)
              else h.control == old(h.control)
      ensures old(h.control) != null && old(h.control.users) > 1 ==>
        old(h.control).data == old(h.control.data) && old(h.control).deleted == 0
      ensures data.Object? ==>
        data.p.deleted == old(data.p.deleted) + (if old(Replacing(h)) && old(h.control.data) == data then 1 else 0)
    {
      if h.control == null {
        Attach(h, data);
      } else if h.control.users > 1 {
        Depart(h, data);
      } else {
        Replace(h, data);
      }
    }

    /** Whether the payload of `h` goes when it gets another. */
    ghost predicate Replacing(h: Handle)
      reads h, h.control
    {
      h.control != null && h.control.users <= 1
    }

    /** `data` called with the payload that the handle already has: the payload is deleted although the
        handle keeps it, or it ends up in two blocks. */
    method SetOwnData(h: Handle)
      requires Valid() && h in handles && h.control != null && h.control.data.Object?
      modifies this`controls, this`payloads, h.Reach()
      ensures !Valid() && h.control != null && h.control.data == old(h.control.data)
      ensures controls == old(controls) + {h.control} && payloads == old(payloads)
      ensures if old(h.control.users) <= 1 then h.control.data.p.deleted == 1
              else fresh(h.control) && old(h.control).data == h.control.data && old(h.control).deleted == 0
    {
      Facts(h);
      SetData(h, h.control.data);
    }

    method Replace(h: Handle, data: Slot)
      requires Valid() && h in handles && h.control != null && h.control.users <= 1 && !data.Indeterminate?
      requires data.Object? && data.p !in payloads ==> data.p.deleted == 0
      modifies this`payloads, h.Reach(), if data.Object? then {data.p} else {}
      ensures Valid() <==> Unowned(data, old(payloads))
      ensures OthersKept(h) && controls == old(controls) && h.control in controls
      ensures payloads == old(payloads) + (if data.Object? then {data.p} else {})
      ensures h.View() == if data.Object? then Holds(old(data.p.value)) else Empty
      ensures h.control == old(h.control) && h.control.data == data
      ensures data.Object? ==> data.p.deleted == old(data.p.deleted) + (if old(h.control.data) == data then 1 else 0)
    {
      Facts(h);
      OwnedPayload(h);
      ReplaceData(h, data);
      ReplacedKeepsValid(h, h.control);
    }

    lemma OwnedPayload(h: Handle)
      requires Valid() && h in handles && h.control != null
      ensures forall p | p in payloads :: p.owner == h.control <==> h.control.data == Object(p)
      ensures forall p | p in payloads && p.owner == h.control :: p.deleted == 0
    {
      Facts(h);
      forall p | p in payloads
        ensures p.owner == h.control ==> h.control.data == Object(p) && p.deleted == 0
      {
        assert PayloadOk(p);
      }
    }

    method ReplaceData(h: Handle, data: Slot)
      requires h in handles && h.control != null && h.control.handles == {h} && !data.Indeterminate?
      requires forall p | p in payloads :: p.owner == h.control <==> h.control.data == Object(p)
      requires h.control.data.Object? ==> h.control.data.p in payloads && h.control.data.p.deleted == 0
      requires data.Object? && data.p !in payloads ==> data.p.deleted == 0
      modifies this`payloads, h.control`data, if h.control.data.Object? then {h.control.data.p} else {}
      modifies if data.Object? then {data.p} else {}
      ensures Replaced(h, h.control) && h.control == old(h.control) && h.control.data == data
      ensures data.Object? ==> data.p.value == old(data.p.value)
      ensures data.Object? ==> data.p.deleted == old(data.p.deleted) + (if old(h.control.data) == data then 1 else 0)
    {
      var c := h.control;
      if c.data.Object? {
        var p := c.data.p;
        p.deleted := p.deleted + 1;
        p.owner := null;
      }
      c.data := data;
      if data.Object? && data.p !in payloads {
        payloads := payloads + {data.p};
        data.p.owner := c;
      }
    }

    twostate predicate Replaced(h: Handle, new c: Control)
      reads *
    {
      && handles == old(handles) && controls == old(controls) && h in handles && c == old(h.control) == h.control
      && c.users == old(c.users) && c.handles == old(c.handles) == {h} && c.deleted == old(c.deleted)
      && !c.data.Indeterminate?
      && payloads == old(payloads) + (if c.data.Object? then {c.data.p} else {})
      && (c.data.Object? && c.data.p !in old(payloads) ==> c.data.p.owner == c && c.data.p.deleted == 0)
      && (forall g | g in handles :: g.control == old(g.control))
      && (forall d | d in controls && d != c :: SameBlock(d))
      && (forall p | p in old(payloads) && old(p.owner) != c :: SamePayload(p))
      && (forall p | p in old(payloads) && old(p.owner) == c :: p.owner == null && p.deleted == 1)
    }

    twostate lemma ReplacedKeepsValid(h: Handle, new c: Control)
      requires old(Valid()) && Replaced(h, c)
      ensures Valid() <==> Unowned(c.data, old(payloads))
      ensures OthersKept(h)
    {
      ReplacedPayloadsOk(h, c);
      ReplacedBlockOk(h, c);
      forall d | d in old(controls) && d != c ensures ControlOk(d) {
        assert old(ControlOk(d));
      }
      ReplacedOthersKept(h, c);
    }

    twostate lemma ReplacedBlockOk(h: Handle, new c: Control)
      requires old(Valid()) && Replaced(h, c)
      ensures ControlOk(c) <==> Unowned(c.data, old(payloads))
    {
      assert old(ControlOk(c));
      if c.data.Object? && c.data.p in old(payloads) {
        var q := c.data.p;
        assert old(PayloadOk(q));
      }
    }

    twostate lemma ReplacedPayloadsOk(h: Handle, new c: Control)
      requires old(Valid()) && Replaced(h, c)
      ensures forall p | p in payloads :: PayloadOk(p)
    {
      assert old(UsesOk(h));
      forall p | p in old(payloads) ensures PayloadOk(p) {
        assert old(PayloadOk(p));
      }
    }

    twostate lemma ReplacedOthersKept(h: Handle, new c: Control)
      requires old(Valid()) && Replaced(h, c)
      ensures OthersKept(h)
    {
      forall g | g in old(handles) && g != h ensures g in handles && g.View() == old(g.View()) {
        assert old(UsesOk(g));
      }
    }

    /** The constructor from a pointer; again all is well exactly if the program did not have the payload. */
    method Construct(data: Slot) returns (h: Handle)
      requires Valid() && !data.Indeterminate?
      requires data.Object? && data.p !in payloads ==> data.p.deleted == 0
      modifies this, if data.Object? then {data.p} else {}
      ensures NothingForgotten()
      ensures Valid() <==> data.Null? || data.p !in old(payloads)
      ensures OthersKept(h) && fresh(h) && handles == old(handles) + {h}
      ensures h.View() == if data.Object? then Holds(old(data.p.value)) else Empty
      ensures fresh(h.control) && h.control.data == data
    {
      h := Enter();
      Attach(h, data);
    }

    /** The copy constructor.  A copy of a handle that was moved away gets a block whose pointer nobody set. */
    method CopyOf(rhs: Handle) returns (h: Handle)
      requires Valid() && rhs in handles
      modifies this, rhs.control
      ensures NothingForgotten()
      ensures Valid() <==> old(rhs.control) != null
      ensures OthersKept(h) && fresh(h) && handles == old(handles) + {h}
      ensures h.View() == if old(rhs.control) != null then old(rhs.View()) else Garbage
      ensures rhs.control == old(rhs.control) && (rhs.control != null ==> h.control == rhs.control)
    {
      h := Enter();
      if rhs.control != null {
        Share(h, rhs);
      } else {
        Attach(h, Indeterminate);
      }
    }

    /** The move constructor. */
    method MoveFrom(rhs: Handle) returns (h: Handle)
      requires Valid() && rhs in handles
      modifies this`handles, rhs, rhs.control
      ensures Valid() && fresh(h) && handles == old(handles) + {h}
      ensures h.View() == old(rhs.View()) && rhs.View() == Moved
      ensures h.control == old(rhs.control)
      ensures forall g | g in old(handles) && g != rhs :: g.View() == old(g.View())
    {
      h := Enter();
      if rhs.control != null {
        Take(h, rhs);
      }
    }

    /** Copy assignment; again a moved-away right-hand side leaves an indeterminate pointer. */
    method Assign(h: Handle, rhs: Handle)
      requires Valid() && h in handles && rhs in handles
      modifies this`controls, this`payloads, h.Reach(), rhs.control
      ensures NothingForgotten()
      ensures Valid() <==> h == rhs || old(rhs.control) != null
      ensures OthersKept(h) && handles == old(handles)
      ensures h.View() == if h == rhs || old(rhs.control) != null then old(rhs.View()) else Garbage
      ensures rhs.control == old(rhs.control) && (rhs.control != null ==> h.control == rhs.control)
    {
      if h != rhs {
        Release(h);
        if rhs.control != null {
          Share(h, rhs);
        } else {
          Attach(h, Indeterminate);
        }
      }
    }

    /** One more handle on the block of `rhs`. */
    method Share(h: Handle, rhs: Handle)
      requires Valid() && h in handles && rhs in handles && h.control == null && rhs.control != null
      modifies h, rhs.control
      ensures Valid() && OthersKept(h) && h.View() == old(rhs.View())
    {
      Facts(rhs);
      Join(h, rhs.control);
    }

    /** Move assignment.  It has no test for self-assignment, which loses the value. */
    method MoveAssign(h: Handle, rhs: Handle)
      requires Valid() && h in handles && rhs in handles
      modifies this`controls, this`payloads, h.Reach(), rhs, rhs.control
      ensures NothingForgotten()
      ensures Valid() <==> h != rhs && old(rhs.control) != null
      ensures handles == old(handles)
      ensures h.View() == if h != rhs && old(rhs.control) != null then old(rhs.View()) else Garbage
      ensures h != rhs ==> rhs.View() == Moved
      ensures h != rhs && old(rhs.control) != null ==> h.control == old(rhs.control)
      ensures forall g | g in handles && g != h && g != rhs :: g.View() == old(g.View())
    {
      Release(h);
      if rhs.control != null {
        Take(h, rhs);
      } else {
        Attach(h, Indeterminate);
      }
    }

    /** The destructor. */
    method Destroy(h: Handle)
      requires Valid() && h in handles
      modifies this`handles, h.Reach()
      ensures Valid() && OthersKept(h) && handles == old(handles) - {h}
    {
      Release(h);
      handles := handles - {h};
    }

    // ----- What the invariant says about whole runs

    /** `users` is the number of handles on the block, and the block is there as long as one is. */
    lemma UsersAreHandles(c: Control)
      requires Valid() && c in controls
      ensures c.deleted == if (exists h :: h in handles && h.control == c) then 0 else 1
      ensures c.deleted == 0 ==> c.users == |set h | h in handles && h.control == c|
    {
      assert c.handles == set h | h in handles && h.control == c;
    }

    /** With the last handle gone every block and every payload was deleted, each once. */
    lemma NothingLeaks()
      requires Valid() && handles == {}
      ensures forall c | c in controls :: c.deleted == 1
      ensures forall p | p in payloads :: p.deleted == 1
    {
    }

    /** What a handle reads is never deleted, and never the payload of a handle on another block. */
    lemma ReadsLivePayload(h: Handle, g: Handle)
      requires Valid() && h in handles && h.control != null && h.control.data.Object?
      requires g in handles && g.control != null && g.control.data.Object?
      ensures h.control.deleted == 0 && h.control.data.p.deleted == 0
      ensures h.control.data.p == g.control.data.p <==> h.control == g.control
    {
      Facts(h);
      Facts(g);
    }

    /** A new payload with two handles. */
    method NewPair(p: Payload) returns (h: Handle, g: Handle)
      requires Valid() && p !in payloads && p.deleted == 0
      modifies this, p
      ensures Valid() && NothingForgotten() && p in payloads
      ensures fresh({h, g}) && h != g && handles == old(handles) + {h, g}
      ensures fresh(h.control) && g.control == h.control && h.control.data == Object(p) && h.control.users > 1
      ensures h.View() == Holds(old(p.value))
    {
      h := Construct(Object(p));
      g := CopyOf(h);
      Facts(h);
      assert g in h.control.handles;
    }

    /** Writing through one of two handles that share a payload. */
    method Separate(h: Handle, g: Handle, value: Value)
      requires Valid() && h in handles && g in handles && h != g && h.control != null && g.control == h.control
      requires h.control.data.Object? && h.control.users > 1
      modifies this`controls, this`payloads, g.Reach()
      ensures Valid() && handles == old(handles) && NothingForgotten()
      ensures h.View() == old(h.View()) && g.View() == Holds(value)
      ensures fresh(g.control) && g.control.data.Object? && fresh(g.control.data.p) && g.control.data.p in payloads
      ensures h.control == old(h.control) && h.control.data == old(h.control.data)
    {
      Write(g, value);
      Facts(g);
    }

    /** Two handles that shared `p` until the second one was written through. */
    method NewSeparatePair(p: Payload, value: Value) returns (h: Handle, g: Handle)
      requires Valid() && p !in payloads && p.deleted == 0
      modifies this, p
      ensures Valid() && NothingForgotten() && p in payloads && h != g && handles == old(handles) + {h, g}
      ensures h.control != null && g.control != null && h.control != g.control
      ensures fresh(h.Reach() - {p}) && fresh(g.Reach()) && h.View() == Holds(old(p.value)) && g.View() == Holds(value)
      ensures h.control.data == Object(p) && g.control.data.Object? && g.control.data.p in payloads
    {
      h, g := NewPair(p);
      Separate(h, g, value);
    }

    /** The destruction of two handles that do not share. */
    method DestroyBoth(h: Handle, g: Handle)
      requires Valid() && h in handles && g in handles && h != g
      requires h.control != null && g.control != null && h.control != g.control
      modifies this`handles, h.Reach(), g.Reach()
      ensures Valid() && handles == old(handles) - {h, g}
    {
      ReachesApart(h, g);
      Destroy(h);
      assert g.Reach() == old(g.Reach());
      Destroy(g);
    }

    lemma ReachesApart(h: Handle, g: Handle)
      requires Valid() && h in handles && g in handles && h != g
      requires h.control != null && g.control != null && h.control != g.control
      ensures h.Reach() !! g.Reach()
    {
      Facts(h);
      Facts(g);
    }

    /** A run from a program without handles: a handle, a copy of it that is written through, and the
        destruction of both.  Both payloads are deleted once. */
    method CopyWriteDrop(p: Payload, value: Value) returns (ghost second: Payload)
      requires Valid() && handles == {} && p !in payloads && p.deleted == 0
      modifies this, p
      ensures Valid() && handles == {} && NothingForgotten()
      ensures fresh(second) && {p, second} <= payloads && p.deleted == second.deleted == 1
    {
      var h, g := NewSeparatePair(p, value);
      second := g.control.data.p;
      DestroyBoth(h, g);
      NothingLeaks();
    }
  }
}
