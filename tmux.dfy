/**
 * The tmux server as the tool sees it: whether tmux is installed, whether the
 * tool runs inside a tmux client, the set of sessions, the session the
 * terminal shows, and the tmux commands that ran. Each command's success is
 * an input; a session exists when its exact name is in the set.
 */
module Tmux {
  import opened Wrappers

  datatype TmuxCall =
    | NewSession(name: string, dir: string, command: Option<string>, detached: bool)
    | SwitchClient(target: string)
    | AttachSession(target: string)
    | SendKeys(target: string, keys: string)
    | KillSessionCall(target: string)

  datatype TmuxError = CreateFailed | StartFailed | SwitchFailed | SendFailed | KillFailed

  /** The pane `send-keys` writes to: the first pane of the first window. */
  function FirstPane(session: string): (r: string)
    ensures |r| == |session| + 4 && r[..|session|] == session && r[|session|..] == ":0.0"
  {
    session + ":0.0"
  }

  /** What a tmux command can change: the sessions, the session the terminal shows, and the commands run. */
  datatype TmuxState = TmuxState(sessions: set<string>, client: Option<string>, calls: seq<TmuxCall>)

  /** The state after the intended SwitchToSession: one switch or attach, and the client moves on success. */
  function AfterSwitch(s: TmuxState, installed: bool, insideTmux: bool, name: string, ok: bool): TmuxState {
    if !installed then s
    else TmuxState(s.sessions, if ok then Some(name) else s.client, s.calls + [if insideTmux then SwitchClient(name) else AttachSession(name)])
  }

  /** The state after SendCommandToSession: one `send-keys` when tmux is installed. */
  function AfterSend(s: TmuxState, installed: bool, name: string, command: string): TmuxState {
    if !installed then s else s.(calls := s.calls + [SendKeys(FirstPane(name), command)])
  }

  /**
   * The state after CreateSessionWithCommand: an existing session is switched
   * to; otherwise `new-session` runs (detached inside tmux, attached outside),
   * and on success the session exists and, inside tmux, is switched to.
   */
  function AfterCreateWithCommand(s: TmuxState, installed: bool, insideTmux: bool, name: string, dir: string, command: string, createOk: bool, switchOk: bool): TmuxState {
    if !installed then s
    else if name in s.sessions then AfterSwitch(s, installed, insideTmux, name, switchOk)
    else
      var started := s.(calls := s.calls + [NewSession(name, dir, Some(command), insideTmux)]);
      if !createOk then started
      else if insideTmux then AfterSwitch(started.(sessions := s.sessions + {name}), installed, insideTmux, name, switchOk)
      else started.(sessions := s.sessions + {name}, client := Some(name))
  }

  /**
   * After CreateSessionWithCommand the session exists whenever it existed or
   * its creation succeeded, no other session appears or disappears, and the
   * terminal shows it unless a switch inside tmux failed.
   */
  lemma SessionReadyAfterCreate(s: TmuxState, insideTmux: bool, name: string, dir: string, command: string, createOk: bool, switchOk: bool)
    requires name in s.sessions || createOk
    ensures var t := AfterCreateWithCommand(s, true, insideTmux, name, dir, command, createOk, switchOk);
      && t.sessions == s.sessions + {name}
      && (switchOk || (!insideTmux && name !in s.sessions) ==> t.client == Some(name))
      && (!switchOk && (insideTmux || name in s.sessions) ==> t.client == s.client)
  {
  }

  class Server {
    /** `which tmux` succeeds. */
    const installed: bool
    /** `TMUX` is set: the tool runs inside a tmux client. */
    const insideTmux: bool
    var sessions: set<string>
    /** The session the terminal shows, once the tool has switched or attached to one. */
    var client: Option<string>
    /** The tmux commands that ran, in order. */
    var calls: seq<TmuxCall>

    constructor (installed: bool, insideTmux: bool, sessions: set<string>)
      ensures this.installed == installed && this.insideTmux == insideTmux
      ensures this.sessions == sessions && client == None && calls == []
    {
      this.installed := installed;
      this.insideTmux := insideTmux;
      this.sessions := sessions;
      client := None;
      calls := [];
    }

    /** The server's state as one value. */
    function State(): TmuxState
      reads this
    {
      TmuxState(sessions, client, calls)
    }

    /** The command a switch runs: `switch-client` inside tmux, `attach-session` outside. */
    function SwitchCall(name: string): TmuxCall {
      if insideTmux then SwitchClient(name) else AttachSession(name)
    }

    /** `tmux has-session -t name`. */
    predicate SessionExists(name: string)
      reads this
    {
      name in sessions
    }

    /**
     * SwitchToSession as the source runs it. Outside tmux the attach command is
     * given the terminal as its standard output and then started through
     * `CombinedOutput`, which refuses a command whose standard output is
     * already set: nothing runs, and the refusal is not reported.
     */
    method SwitchToSessionAsWritten(name: string, ok: bool) returns (err: Option<TmuxError>)
      modifies this
      ensures sessions == old(sessions)
      ensures err.Some? <==> installed && insideTmux && !ok
      ensures installed && insideTmux ==> calls == old(calls) + [SwitchClient(name)] && client == (if ok then Some(name) else old(client))
      ensures !installed || !insideTmux ==> calls == old(calls) && client == old(client)
    {
      if !installed {
        return None;
      }
      if insideTmux {
        calls := calls + [SwitchClient(name)];
        if !ok {
          return Some(SwitchFailed);
        }
        client := Some(name);
      }
      return None;
    }

    /**
     * SwitchToSession as intended: switch the client inside tmux, attach the
     * terminal outside it. Only a failed switch inside tmux is reported.
     */
    method SwitchToSession(name: string, ok: bool) returns (err: Option<TmuxError>)
      modifies this
      ensures sessions == old(sessions)
      ensures err.Some? <==> installed && insideTmux && !ok
      ensures installed ==> calls == old(calls) + [SwitchCall(name)]
      ensures installed ==> client == (if ok then Some(name) else old(client))
      ensures !installed ==> calls == old(calls) && client == old(client)
      ensures State() == AfterSwitch(old(State()), installed, insideTmux, name, ok)
    {
      if !installed {
        return None;
      }
      if insideTmux {
        calls := calls + [SwitchClient(name)];
      } else {
        calls := calls + [AttachSession(name)];
      }
      if ok {
        client := Some(name);
      } else if insideTmux {
        return Some(SwitchFailed);
      }
      return None;
    }

    /**
     * CreateSession: reuse an existing session, or create it detached in
     * `dir`; then switch to it. Without tmux nothing happens.
     */
    method CreateSession(name: string, dir: string, createOk: bool, switchOk: bool) returns (err: Option<TmuxError>)
      modifies this
      ensures !installed ==> err.None? && sessions == old(sessions) && calls == old(calls) && client == old(client)
      ensures installed && name in old(sessions) ==>
        sessions == old(sessions) && calls == old(calls) + [SwitchCall(name)] && (err.Some? <==> insideTmux && !switchOk)
      ensures installed && name !in old(sessions) && !createOk ==>
        err == Some(CreateFailed) && sessions == old(sessions) && calls == old(calls) + [NewSession(name, dir, None, true)] && client == old(client)
      ensures installed && name !in old(sessions) && createOk ==>
        && sessions == old(sessions) + {name}
        && calls == old(calls) + [NewSession(name, dir, None, true), SwitchCall(name)]
        && (err.Some? <==> insideTmux && !switchOk)
      ensures installed && (name in old(sessions) || createOk) ==> client == (if switchOk then Some(name) else old(client))
    {
      if !installed {
        return None;
      }
      if SessionExists(name) {
        err := SwitchToSession(name, switchOk);
        return;
      }
      calls := calls + [NewSession(name, dir, None, true)];
      if !createOk {
        return Some(CreateFailed);
      }
      sessions := sessions + {name};
      err := SwitchToSession(name, switchOk);
    }

    /**
     * CreateSessionWithCommand: reuse an existing session; otherwise, inside
     * tmux, create it detached running `command` and switch to it; outside
     * tmux, start it attached to the terminal, running `command`.
     */
    method CreateSessionWithCommand(name: string, dir: string, command: string, createOk: bool, switchOk: bool) returns (err: Option<TmuxError>)
      modifies this
      ensures !installed ==> err.None? && sessions == old(sessions) && calls == old(calls) && client == old(client)
      ensures installed && name in old(sessions) ==>
        && sessions == old(sessions) && calls == old(calls) + [SwitchCall(name)]
        && client == (if switchOk then Some(name) else old(client))
        && (err.Some? <==> insideTmux && !switchOk)
      ensures installed && name !in old(sessions) ==> sessions == if createOk then old(sessions) + {name} else old(sessions)
      ensures installed && name !in old(sessions) && !createOk ==>
        && calls == old(calls) + [NewSession(name, dir, Some(command), insideTmux)] && client == old(client)
        && err == Some(if insideTmux then CreateFailed else StartFailed)
      ensures installed && name !in old(sessions) && insideTmux && createOk ==>
        && calls == old(calls) + [NewSession(name, dir, Some(command), true), SwitchClient(name)]
        && client == (if switchOk then Some(name) else old(client))
        && (err.Some? <==> !switchOk)
      ensures installed && name !in old(sessions) && !insideTmux && createOk ==>
        calls == old(calls) + [NewSession(name, dir, Some(command), false)] && client == Some(name) && err.None?
      ensures State() == AfterCreateWithCommand(old(State()), installed, insideTmux, name, dir, command, createOk, switchOk)
    {
      if !installed {
        return None;
      }
      if SessionExists(name) {
        err := SwitchToSession(name, switchOk);
        return;
      }
      calls := calls + [NewSession(name, dir, Some(command), insideTmux)];
      if insideTmux {
        if !createOk {
          return Some(CreateFailed);
        }
        sessions := sessions + {name};
        err := SwitchToSession(name, switchOk);
      } else {
        if !createOk {
          return Some(StartFailed);
        }
        sessions := sessions + {name};
        client := Some(name);
        return None;
      }
    }

    /** SendCommandToSession: `send-keys` to the session's first pane. */
    method SendCommandToSession(name: string, command: string, ok: bool) returns (err: Option<TmuxError>)
      modifies this
      ensures sessions == old(sessions) && client == old(client)
      ensures installed ==> calls == old(calls) + [SendKeys(FirstPane(name), command)]
      ensures !installed ==> calls == old(calls)
      ensures err.Some? <==> installed && !ok
      ensures State() == AfterSend(old(State()), installed, name, command)
    {
      if !installed {
        return None;
      }
      calls := calls + [SendKeys(FirstPane(name), command)];
      if !ok {
        return Some(SendFailed);
      }
      return None;
    }

    /** `tmux kill-session -t name`. */
    method KillSession(name: string, ok: bool) returns (err: Option<TmuxError>)
      modifies this
      ensures client == old(client)
      ensures calls == old(calls) + [KillSessionCall(name)]
      ensures ok ==> err.None? && sessions == old(sessions) - {name}
      ensures !ok ==> err == Some(KillFailed) && sessions == old(sessions)
    {
      calls := calls + [KillSessionCall(name)];
      if !ok {
        return Some(KillFailed);
      }
      sessions := sessions - {name};
      return None;
    }
  }

  /**
   * Outside tmux, the source's switch leaves the terminal where it was, while
   * the intended one attaches it to the session.
   */
  method SwitchOutsideTmuxLost() returns (asWritten: Option<string>, intended: Option<string>)
    ensures asWritten == None && intended == Some("work")
  {
    var s1 := new Server(true, false, {"work"});
    var _ := s1.SwitchToSessionAsWritten("work", true);
    asWritten := s1.client;
    var s2 := new Server(true, false, {"work"});
    var _ := s2.SwitchToSession("work", true);
    intended := s2.client;
  }
}
