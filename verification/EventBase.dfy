/**
  The event base of devel/libevbase with its four backends. An event's flags are a set; every backend keeps the
  interest set in its own way, and all of them arm exactly what the registered events ask for. Events are persistent
  throughout.
 */
module EventBase {
  datatype Flag = Read | Write | Close | Persist | EdgeTriggered | Lock

  type Flags = set<Flag>

  const IO: Flags := {Read, Write}

  /** EOP_SELECT, EOP_POLL, EOP_EPOLL and EOP_KQUEUE. */
  datatype Backend = Select | Poll | Epoll | Kqueue

  datatype Result = PollIn | PollOut | PollHup | PollErr

  /** `struct pollfd` */
  datatype PollFd = PollFd(fd: int, events: Flags, revents: set<Result>)

  /** An entry still holds its results, or none. */
  predicate Settled(before: PollFd, after: PollFd) {
    after.revents == before.revents || after.revents == {}
  }

  datatype CtlOp = CtlAdd | CtlMod | CtlDel
  datatype Errno = NoError | ENOENT | EEXIST

  class Event {
    var fd: int
    var flags: Flags
    var oldFlags: Flags
    var base: Base?

    /** `event_set` on a new event. */
    constructor (fd: int, flags: Flags)
      ensures this.fd == fd && this.flags == flags && base == null
    {
      this.fd, this.flags, oldFlags, base := fd, flags, {}, null;
    }
  }

  class Base {
    const ops: Backend
    const evlist: array<Event?>
    var maxfd: int
    /** `ev_read_fds` and `ev_write_fds` */
    var readFds: set<int>
    var writeFds: set<int>
    /** `ev_fds` */
    const pollFds: array<PollFd>
    /** What the kernel holds for the epoll descriptor, and the kqueue filters with whether they are enabled. */
    var registered: map<int, Flags>
    var filters: map<(int, Flag), bool>
    /** The events added and not destroyed. */
    ghost var regs: map<int, Event>

    constructor (ops: Backend, allowed: nat)
      requires allowed >= 1
      ensures Valid() && this.ops == ops && evlist.Length == allowed && regs == map[] && fresh(evlist) && fresh(pollFds)
    {
      this.ops := ops;
      evlist := new Event?[allowed](_ => null);
      pollFds := new PollFd[allowed](_ => PollFd(0, {}, {}));
      maxfd, readFds, writeFds, registered, filters, regs := 0, {}, {}, map[], map[], map[];
    }

    // ---- What is armed ----

    /** The interest the backend has told the system, for one descriptor. */
    ghost function Armed(fd: int): Flags
      reads `readFds, `writeFds, `registered, `filters, pollFds
    {
      match ops
      case Select => (if fd in readFds then {Read} else {}) + (if fd in writeFds then {Write} else {})
      case Poll => if 0 <= fd < pollFds.Length then pollFds[fd].events else {}
      case Epoll => if fd in registered then registered[fd] * IO else {}
      case Kqueue => (if Enabled(fd, Read) then {Read} else {}) + (if Enabled(fd, Write) then {Write} else {})
    }

    ghost predicate Enabled(fd: int, f: Flag)
      reads `filters
    {
      (fd, f) in filters && filters[(fd, f)]
    }

    /** What registered events ask for. */
    ghost function Wanted(fd: int): Flags
      reads this, regs.Values
    {
      if fd in regs then regs[fd].flags * IO else {}
    }

    /**
      The event list holds the registered events, `maxfd` bounds them, and epoll may leave out one that never asked
      for anything.
     */
    ghost predicate Listed()
      reads this, evlist, regs.Values
    {
      && evlist.Length == pollFds.Length && maxfd < evlist.Length
      && (forall fd :: fd in regs ==> 0 <= fd < evlist.Length && regs[fd].fd == fd && regs[fd].base == this)
      && (forall fd :: 0 <= fd < evlist.Length && evlist[fd] != null ==>
            fd in regs && evlist[fd] == regs[fd] && fd <= maxfd)
      && (forall fd :: fd in regs && evlist[fd] == null ==> ops == Epoll && fd !in registered)
      && (forall fd :: fd in registered ==> fd in regs && ops == Epoll)
    }

    /** Every backend refines one map from descriptors to flags. */
    ghost predicate Valid()
      reads this, evlist, pollFds, regs.Values
    {
      Listed() && AllPersistent() && Quiet() && forall fd :: Armed(fd) == Wanted(fd)
    }

    ghost predicate Asks(fd: int, f: Flag)
      reads this, regs.Values
    {
      fd in regs && f in regs[fd].flags
    }

    /** A valid base is the one map in four forms: descriptor sets, pollfd entries, epoll registrations, filters. */
    lemma OneMap(fd: int)
      requires Valid()
      ensures ops == Select ==> (fd in readFds <==> Asks(fd, Read)) && (fd in writeFds <==> Asks(fd, Write))
      ensures ops == Poll && 0 <= fd < pollFds.Length ==>
        (Read in pollFds[fd].events <==> Asks(fd, Read)) && (Write in pollFds[fd].events <==> Asks(fd, Write))
      ensures ops == Epoll && fd in registered ==>
        (Read in registered[fd] <==> Asks(fd, Read)) && (Write in registered[fd] <==> Asks(fd, Write))
      ensures ops == Epoll && fd !in registered ==> !Asks(fd, Read) && !Asks(fd, Write)
      ensures ops == Kqueue ==>
        && ((fd, Read) in filters && filters[(fd, Read)] <==> Asks(fd, Read))
        && ((fd, Write) in filters && filters[(fd, Write)] <==> Asks(fd, Write))
    {
      assert Armed(fd) == Wanted(fd);
      assert Read in Armed(fd) <==> Asks(fd, Read);
      assert Write in Armed(fd) <==> Asks(fd, Write);
      assert ops == Epoll && fd in registered ==> (Read in Armed(fd) <==> Read in registered[fd]);
      assert ops == Epoll && fd in registered ==> (Write in Armed(fd) <==> Write in registered[fd]);
    }

    /** Entries beyond `maxfd` hold no results of `poll`; the other backends have none at all. */
    ghost predicate Quiet()
      reads `maxfd, pollFds
    {
      forall fd :: 0 <= fd < pollFds.Length && (maxfd < fd || ops != Poll) ==> pollFds[fd].revents == {}
    }

    ghost predicate AllPersistent()
      reads this, regs.Values
    {
      forall fd :: fd in regs ==> Persist in regs[fd].flags
    }

    /** As `Valid`, but the event of `fd` has just changed its flags from `was`. */
    ghost predicate Stale(fd: int, was: Flags)
      reads this, evlist, pollFds, regs.Values
    {
      Listed() && AllPersistent() && Quiet() && fd in regs && Armed(fd) == was
        && forall x :: x != fd ==> Armed(x) == Wanted(x)
    }

    // ---- System calls ----

    /** `epoll_ctl` for a descriptor that can be polled. */
    method EpollCtl(op: CtlOp, fd: int, mask: Flags) returns (err: Errno)
      modifies `registered
      ensures op.CtlAdd? ==> err == (if fd in old(registered) then EEXIST else NoError)
      ensures !op.CtlAdd? ==> err == (if fd in old(registered) then NoError else ENOENT)
      ensures err != NoError ==> registered == old(registered)
      ensures err == NoError ==>
        registered == if op.CtlDel? then old(registered) - {fd} else old(registered)[fd := mask]
    {
      err := NoError;
      match op {
        case CtlAdd =>
          if fd in registered {
            err := EEXIST;
          } else {
            registered := registered[fd := mask];
          }
        case CtlMod =>
          if fd in registered {
            registered := registered[fd := mask];
          } else {
            err := ENOENT;
          }
        case CtlDel =>
          if fd in registered {
            registered := registered - {fd};
          } else {
            err := ENOENT;
          }
      }
    }

    /** EV_ADD, with or without EV_ENABLE: a new filter is enabled. */
    method FilterAdd(fd: int, f: Flag)
      modifies `filters
      ensures filters == old(filters)[(fd, f) := true]
    {
      filters := filters[(fd, f) := true];
    }

    /** EV_DISABLE fails without effect when there is no filter. */
    method FilterDisable(fd: int, f: Flag)
      modifies `filters
      ensures filters == if (fd, f) in old(filters) then old(filters)[(fd, f) := false] else old(filters)
    {
      if (fd, f) in filters {
        filters := filters[(fd, f) := false];
      }
    }

    method FilterDelete(fd: int, f: Flag)
      modifies `filters
      ensures filters == old(filters) - {(fd, f)}
    {
      filters := filters - {(fd, f)};
    }

    // ---- Adding ----

    method ArmSelect(fd: int, flags: Flags)
      requires ops == Select && Armed(fd) == {}
      modifies `readFds, `writeFds
      ensures Armed(fd) == flags * IO && forall x :: x != fd ==> Armed(x) == old(Armed(x))
    {
      if Read in flags {
        readFds := readFds + {fd};
      }
      if Write in flags {
        writeFds := writeFds + {fd};
      }
    }

    method ArmPoll(fd: int, flags: Flags)
      requires ops == Poll && 0 <= fd < pollFds.Length && Armed(fd) == {}
      modifies pollFds
      ensures Armed(fd) == flags * IO && forall x :: x != fd ==> Armed(x) == old(Armed(x))
      ensures forall x :: 0 <= x < pollFds.Length && x != fd ==> pollFds[x] == old(pollFds[x])
      ensures forall x :: 0 <= x < pollFds.Length ==> Settled(old(pollFds[x]), pollFds[x])
    {
      var evFlags: Flags := {};
      if Read in flags {
        evFlags := evFlags + {Read};
      }
      if Write in flags {
        evFlags := evFlags + {Write};
      }
      if evFlags != {} {
        pollFds[fd] := PollFd(fd, evFlags, {});
      }
    }

    /** ADD, falling back to MOD; ADD never fails with ENOENT, so that fallback is left out. */
    method ArmEpoll(fd: int, flags: Flags) returns (add: bool)
      requires ops == Epoll
      modifies `registered
      ensures add || fd !in registered ==> Armed(fd) == flags * IO
      ensures forall x :: x != fd ==> Armed(x) == old(Armed(x))
      ensures add <==> flags * IO != {}
      ensures registered.Keys == if add then old(registered.Keys) + {fd} else old(registered.Keys)
    {
      var evFlags: Flags := {};
      add := false;
      if Read in flags {
        evFlags, add := evFlags + {Read}, true;
      }
      if Write in flags {
        evFlags, add := evFlags + {Write}, true;
      }
      if EdgeTriggered in flags {
        evFlags := evFlags + {EdgeTriggered};
      }
      if add {
        var err := EpollCtl(CtlAdd, fd, evFlags);
        if err == EEXIST {
          err := EpollCtl(CtlMod, fd, evFlags);
        }
      }
    }

    method ArmKqueue(fd: int, flags: Flags)
      requires ops == Kqueue && Armed(fd) == {}
      modifies `filters
      ensures Armed(fd) == flags * IO && forall x :: x != fd ==> Armed(x) == old(Armed(x))
    {
      if Read in flags {
        FilterAdd(fd, Read);
      }
      if Write in flags {
        FilterAdd(fd, Write);
      }
    }

    /** UPDATE_EVENT_FD */
    method Enlist(event: Event)
      requires 0 <= event.fd < evlist.Length
      modifies `maxfd, evlist
      ensures evlist[event.fd] == event
      ensures forall x :: 0 <= x < evlist.Length && x != event.fd ==> evlist[x] == old(evlist[x])
      ensures maxfd == if event.fd > old(maxfd) then event.fd else old(maxfd)
    {
      evlist[event.fd] := event;
      if event.fd > maxfd {
        maxfd := event.fd;
      }
    }

    /** REMOVE_EVENT_FD: the bound only comes down by one, and still holds. */
    method Delist(event: Event)
      requires 0 <= event.fd < evlist.Length
      modifies `maxfd, evlist
      ensures evlist[event.fd] == null
      ensures forall x :: 0 <= x < evlist.Length && x != event.fd ==> evlist[x] == old(evlist[x])
      ensures maxfd == if event.fd == old(maxfd) then old(maxfd) - 1 else old(maxfd)
    {
      if event.fd == maxfd {
        maxfd := event.fd - 1;
      }
      evlist[event.fd] := null;
    }

    /** What all four `add` functions require and promise, for a descriptor in range that is not registered. */
    method AddSelect(event: Event)
      requires ops == Select && Addable(event)
      modifies this, evlist, event`base
      ensures Valid() && event.flags == old(event.flags) && regs == old(regs)[event.fd := event]
    {
      hide Armed;
      ghost var before := regs;
      NotRegistered(event.fd);
      Enlist(event);
      event.base := this;
      ArmSelect(event.fd, event.flags);
      regs := before[event.fd := event];
      assert Listed();
      assert forall x :: x != event.fd ==> Wanted(x) == old(Wanted(x));
    }

    method AddPoll(event: Event)
      requires ops == Poll && Addable(event)
      modifies this, evlist, pollFds, event`base
      ensures Valid() && event.flags == old(event.flags) && regs == old(regs)[event.fd := event]
      ensures forall x :: 0 <= x < pollFds.Length && x != event.fd ==> pollFds[x] == old(pollFds[x])
      ensures forall x :: 0 <= x < pollFds.Length ==> Settled(old(pollFds[x]), pollFds[x])
    {
      hide Armed;
      ghost var before := regs;
      NotRegistered(event.fd);
      Enlist(event);
      event.base := this;
      ArmPoll(event.fd, event.flags);
      regs := before[event.fd := event];
      assert Listed();
      assert forall x :: x != event.fd ==> Wanted(x) == old(Wanted(x));
    }

    method AddEpoll(event: Event)
      requires ops == Epoll && Addable(event)
      modifies this, evlist, event`base
      ensures Valid() && event.flags == old(event.flags) && regs == old(regs)[event.fd := event]
    {
      hide Armed;
      ghost var before := regs;
      NotRegistered(event.fd);
      event.base := this;
      EnlistEpoll(event);
      regs := before[event.fd := event];
      assert Listed();
      assert forall x :: x != event.fd ==> Wanted(x) == old(Wanted(x));
    }

    /** An event that asks for nothing is not entered in the event list. */
    method EnlistEpoll(event: Event)
      requires ops == Epoll && 0 <= event.fd < evlist.Length && evlist[event.fd] == null && event.fd !in registered
      modifies `registered, `maxfd, evlist
      ensures Armed(event.fd) == event.flags * IO && forall x :: x != event.fd ==> Armed(x) == old(Armed(x))
      ensures evlist[event.fd] == if event.flags * IO != {} then event else null
      ensures forall x :: 0 <= x < evlist.Length && x != event.fd ==> evlist[x] == old(evlist[x])
      ensures event.flags * IO != {} ==> maxfd == if event.fd > old(maxfd) then event.fd else old(maxfd)
      ensures event.flags * IO == {} ==> maxfd == old(maxfd)
      ensures registered.Keys
           == if event.flags * IO != {} then old(registered.Keys) + {event.fd} else old(registered.Keys)
    {
      hide Armed;
      var add := ArmEpoll(event.fd, event.flags);
      if add {
        Enlist(event);
      }
    }

    method AddKqueue(event: Event)
      requires ops == Kqueue && Addable(event)
      modifies this, evlist, event`base
      ensures Valid() && event.flags == old(event.flags) && regs == old(regs)[event.fd := event]
    {
      hide Armed;
      ghost var before := regs;
      NotRegistered(event.fd);
      Enlist(event);
      event.base := this;
      ArmKqueue(event.fd, event.flags);
      regs := before[event.fd := event];
      assert Listed();
      assert forall x :: x != event.fd ==> Wanted(x) == old(Wanted(x));
    }

    ghost predicate Addable(event: Event)
      reads this, evlist, pollFds, regs.Values, event
    {
      Valid() && 0 <= event.fd < evlist.Length && event.fd !in regs && event.base == null && Persist in event.flags
    }

    /** `evselect_add`, `evpoll_add`, `evepoll_add`, `evkqueue_add` for a descriptor that is not registered. */
    method Add(event: Event) returns (ret: int)
      requires Valid() && event.fd !in regs && event.base == null && Persist in event.flags
      modifies this, evlist, pollFds, event`base
      ensures Valid() && event.flags == old(event.flags)
      ensures forall x :: 0 <= x < pollFds.Length && x != event.fd ==> pollFds[x] == old(pollFds[x])
      ensures forall x :: 0 <= x < pollFds.Length ==> Settled(old(pollFds[x]), pollFds[x])
      ensures 0 <= event.fd < evlist.Length ==> ret == 0 && regs == old(regs)[event.fd := event]
      ensures !(0 <= event.fd < evlist.Length) ==>
        ret == (if ops == Epoll || ops == Kqueue then 0 else -1) && regs == old(regs)
    {
      hide Armed, Listed, AllPersistent;
      if !(0 <= event.fd < evlist.Length) {
        return if ops == Epoll || ops == Kqueue then 0 else -1;
      }
      match ops {
        case Select => AddSelect(event);
        case Poll => AddPoll(event);
        case Epoll => AddEpoll(event);
        case Kqueue => AddKqueue(event);
      }
      ret := 0;
    }

    lemma NotRegistered(fd: int)
      requires Valid() && fd !in regs
      ensures Armed(fd) == {} && fd !in registered
    {
    }

    lemma NothingArmed(fd: int)
      requires ops == Epoll && fd !in registered
      ensures Armed(fd) == {}
    {
    }

    // ---- Updating ----

    /** By the difference of new and old flags. */
    method RearmSelect(fd: int, flags: Flags, oldFlags: Flags)
      requires ops == Select && Armed(fd) == oldFlags * IO
      modifies `readFds, `writeFds
      ensures Armed(fd) == flags * IO && forall x :: x != fd ==> Armed(x) == old(Armed(x))
    {
      var changed := (flags - oldFlags) + (oldFlags - flags);
      var added := flags * changed;
      var deleted := oldFlags * changed;
      if Read in added {
        readFds := readFds + {fd};
      }
      if Read in deleted {
        readFds := readFds - {fd};
      }
      if Write in added {
        writeFds := writeFds + {fd};
      }
      if Write in deleted {
        writeFds := writeFds - {fd};
      }
    }

    /** By computing the mask again. */
    method RearmPoll(fd: int, flags: Flags)
      requires ops == Poll && 0 <= fd < pollFds.Length
      modifies pollFds
      ensures Armed(fd) == flags * IO && forall x :: x != fd ==> Armed(x) == old(Armed(x))
      ensures forall x :: 0 <= x < pollFds.Length && x != fd ==> pollFds[x] == old(pollFds[x])
      ensures forall x :: 0 <= x < pollFds.Length ==> Settled(old(pollFds[x]), pollFds[x])
    {
      var evFlags: Flags := {};
      if Read in flags {
        evFlags := evFlags + {Read};
      }
      if Write in flags {
        evFlags := evFlags + {Write};
      }
      pollFds[fd] := PollFd(fd, evFlags, {});
    }

    /** MOD, falling back to ADD for an event that was added without interest; MOD never fails with EEXIST. */
    method RearmEpoll(fd: int, flags: Flags)
      requires ops == Epoll && 0 <= fd < evlist.Length && evlist[fd] != null
      modifies `registered
      ensures Armed(fd) == flags * IO && forall x :: x != fd ==> Armed(x) == old(Armed(x))
      ensures registered.Keys == old(registered.Keys) + {fd}
    {
      var evFlags: Flags := {};
      if Read in flags {
        evFlags := evFlags + {Read};
      }
      if Write in flags {
        evFlags := evFlags + {Write};
      }
      if EdgeTriggered in flags {
        evFlags := evFlags + {EdgeTriggered};
      }
      var op := CtlMod;
      var err := EpollCtl(op, fd, evFlags);
      if err == ENOENT {
        err := EpollCtl(CtlAdd, fd, evFlags);
      }
    }

    /** By the difference, as enabled and disabled filters. */
    method RearmKqueue(fd: int, flags: Flags, oldFlags: Flags)
      requires ops == Kqueue && Armed(fd) == oldFlags * IO
      modifies `filters
      ensures Armed(fd) == flags * IO && forall x :: x != fd ==> Armed(x) == old(Armed(x))
    {
      var changed := (flags - oldFlags) + (oldFlags - flags);
      var added := flags * changed;
      var deleted := oldFlags * changed;
      if Read in deleted {
        FilterDisable(fd, Read);
      }
      if Write in deleted {
        FilterDisable(fd, Write);
      }
      if Read in added {
        FilterAdd(fd, Read);
      }
      if Write in added {
        FilterAdd(fd, Write);
      }
    }

    /** `evselect_update`, `evpoll_update`, `evepoll_update`, `evkqueue_update` */
    method Update(event: Event)
      requires Stale(event.fd, event.oldFlags * IO) && regs[event.fd] == event
      modifies this, evlist, pollFds
      ensures Valid() && regs == old(regs)
      ensures forall x :: 0 <= x < pollFds.Length && x != event.fd ==> pollFds[x] == old(pollFds[x])
      ensures forall x :: 0 <= x < pollFds.Length ==> Settled(old(pollFds[x]), pollFds[x])
    {
      hide Armed;
      var fd := event.fd;
      Enlist(event);
      match ops {
        case Select => RearmSelect(fd, event.flags, event.oldFlags);
        case Poll => RearmPoll(fd, event.flags);
        case Epoll => RearmEpoll(fd, event.flags);
        case Kqueue => RearmKqueue(fd, event.flags, event.oldFlags);
      }
    }

    // ---- Deleting ----

    method Disarm(fd: int)
      requires ops != Epoll && 0 <= fd < pollFds.Length
      modifies `readFds, `writeFds, `filters, pollFds
      ensures Armed(fd) == {} && forall x :: x != fd ==> Armed(x) == old(Armed(x))
      ensures ops == Poll ==> pollFds[fd].revents == {}
      ensures forall x :: 0 <= x < pollFds.Length && x != fd ==> pollFds[x] == old(pollFds[x])
      ensures forall x :: 0 <= x < pollFds.Length ==> Settled(old(pollFds[x]), pollFds[x])
    {
      match ops {
        case Select =>
          readFds := readFds - {fd};
          writeFds := writeFds - {fd};
        case Poll =>
          pollFds[fd] := PollFd(0, {}, {});
        case Kqueue =>
          FilterDelete(fd, Read);
          FilterDelete(fd, Write);
      }
    }

    method DisarmEpoll(fd: int)
      requires ops == Epoll
      modifies `registered
      ensures Armed(fd) == {} && forall x :: x != fd ==> Armed(x) == old(Armed(x))
      ensures registered.Keys == old(registered.Keys) - {fd}
    {
      var err := EpollCtl(CtlDel, fd, {});
    }

    /** What `event_destroy` calls with: all is in order but for the event that is leaving. */
    ghost predicate Leaving(event: Event)
      reads this, evlist, pollFds, regs.Values, event
    {
      && Listed() && Quiet() && event.fd in regs && regs[event.fd] == event
      && (forall x :: x != event.fd ==> Armed(x) == Wanted(x))
      && (forall x :: x != event.fd && x in regs ==> Persist in regs[x].flags)
    }

    method DelListed(event: Event)
      requires ops != Epoll && Leaving(event)
      modifies this, evlist, pollFds
      ensures Valid() && regs == old(regs) - {event.fd}
      ensures forall x :: 0 <= x < pollFds.Length && x != event.fd ==> pollFds[x] == old(pollFds[x])
      ensures forall x :: 0 <= x < pollFds.Length ==> Settled(old(pollFds[x]), pollFds[x])
    {
      hide Armed;
      ghost var before := regs;
      Disarm(event.fd);
      Delist(event);
      regs := before - {event.fd};
    }

    method DelEpoll(event: Event)
      requires ops == Epoll && Leaving(event)
      modifies this, evlist
      ensures Valid() && regs == old(regs) - {event.fd}
    {
      hide Armed;
      ghost var before := regs;
      if evlist[event.fd] != null {
        DisarmEpoll(event.fd);
        Delist(event);
      } else {
        NothingArmed(event.fd);
      }
      regs := before - {event.fd};
    }

    /** `evselect_del`, `evpoll_del`, `evepoll_del`, `evkqueue_del` */
    method Del(event: Event)
      requires Leaving(event)
      modifies this, evlist, pollFds
      ensures Valid() && regs == old(regs) - {event.fd}
      ensures forall x :: 0 <= x < pollFds.Length && x != event.fd ==> pollFds[x] == old(pollFds[x])
      ensures forall x :: 0 <= x < pollFds.Length ==> Settled(old(pollFds[x]), pollFds[x])
    {
      hide Armed, Leaving, AllPersistent, Listed;
      if ops == Epoll {
        DelEpoll(event);
      } else {
        DelListed(event);
      }
    }
  }

  // ---- Events ----

  /** `event_add` */
  method EventAdd(event: Event, flags: Flags)
    requires event.base != null ==> var b := event.base; b.Valid() && event.fd in b.regs && b.regs[event.fd] == event
    modifies event, event.base, if event.base == null then {} else {event.base.evlist, event.base.pollFds}
    ensures event.base == old(event.base) && event.fd == old(event.fd)
    ensures event.flags == if old(event.base) == null then old(event.flags) else old(event.flags) + flags
    ensures old(event.base) != null ==> var b := old(event.base); b.Valid() && b.regs == old(b.regs)
    ensures old(event.base) != null ==> var b := old(event.base);
      && (forall x :: 0 <= x < b.pollFds.Length && x != event.fd ==> b.pollFds[x] == old(b.pollFds[x]))
      && (forall x :: 0 <= x < b.pollFds.Length ==> Settled(old(b.pollFds[x]), b.pollFds[x]))
  {
    if event.base != null && flags != {} {
      var b := event.base;
      event.oldFlags := event.flags;
      event.flags := event.flags + flags;
      b.Update(event);
    }
  }

  /** `event_del`, with the event staying persistent */
  method EventDel(event: Event, flags: Flags)
    requires event.base != null ==> var b := event.base; b.Valid() && event.fd in b.regs && b.regs[event.fd] == event
    requires Persist !in flags
    modifies event, event.base, if event.base == null then {} else {event.base.evlist, event.base.pollFds}
    ensures event.base == old(event.base) && event.fd == old(event.fd)
    ensures event.flags == if old(event.base) == null then old(event.flags) else old(event.flags) - flags
    ensures old(event.base) != null ==> var b := old(event.base); b.Valid() && b.regs == old(b.regs)
    ensures old(event.base) != null ==> var b := old(event.base);
      && (forall x :: 0 <= x < b.pollFds.Length && x != event.fd ==> b.pollFds[x] == old(b.pollFds[x]))
      && (forall x :: 0 <= x < b.pollFds.Length ==> Settled(old(b.pollFds[x]), b.pollFds[x]))
  {
    if event.base != null && flags != {} {
      var b := event.base;
      event.oldFlags := event.flags;
      event.flags := event.flags - flags;
      b.Update(event);
    }
  }

  /** `event_destroy` */
  method EventDestroy(event: Event)
    requires event.base != null ==> var b := event.base; b.Valid() && event.fd in b.regs && b.regs[event.fd] == event
    modifies event, event.base, if event.base == null then {} else {event.base.evlist, event.base.pollFds}
    ensures event.base == null && event.flags == {} && event.fd == old(event.fd)
    ensures old(event.base) != null ==> var b := old(event.base); b.Valid() && b.regs == old(b.regs) - {event.fd}
    ensures old(event.base) != null ==> var b := old(event.base);
      && (forall x :: 0 <= x < b.pollFds.Length && x != event.fd ==> b.pollFds[x] == old(b.pollFds[x]))
      && (forall x :: 0 <= x < b.pollFds.Length ==> Settled(old(b.pollFds[x]), b.pollFds[x]))
  {
    event.flags := {};
    if event.base != null {
      var b := event.base;
      b.Del(event);
      event.base := null;
    }
  }
}
