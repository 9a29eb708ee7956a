/** The current mode and the stack of entered modes: `cli_set_configmode`, `cli_push_configmode`
    and `cli_exit`. */
module Modes {

  const MODE_ANY: int := -1
  const MODE_EXEC: int := 0
  const MODE_CONFIG: int := 1

  datatype Entry = Entry(mode: int, desc: string)

  /** The mode fields of the CLI; the top of the stack is its last element. */
  datatype ModeState = ModeState(mode: int, stack: seq<Entry>) {

    /** The configuration modes proper are entered without a stack. */
    function Set(mode: int): ModeState {
      ModeState(mode, if mode == MODE_CONFIG || mode == MODE_EXEC then [] else stack)
    }

    function Push(mode: int, desc: string): ModeState {
      ModeState(mode, Set(mode).stack + [Entry(mode, desc)])
    }

    /** The state after `exit`, which in MODE_EXEC with an empty stack ends the session. */
    function Exit(): ModeState {
      if |stack| > 1 then
        ModeState(mode, stack[..|stack| - 1]).Set(stack[|stack| - 2].mode)
      else if mode == MODE_EXEC then ModeState(mode, []).Set(MODE_EXEC)
      else if mode != MODE_CONFIG then ModeState(mode, []).Set(MODE_CONFIG)
      else ModeState(mode, []).Set(MODE_EXEC)
    }

    /** A stack stands for the mode on its top, and only modes entered by pushing have one. */
    ghost predicate Consistent() {
      && (stack != [] ==> stack[|stack| - 1].mode == mode)
      && (forall e <- stack :: e.mode > MODE_CONFIG)
    }
  }

  class Terminal {
    var mode: int
    var modeStack: seq<Entry>

    function State(): ModeState
      reads this
    {
      ModeState(mode, modeStack)
    }

    constructor ()
      ensures State() == ModeState(MODE_EXEC, [])
    {
      mode, modeStack := MODE_EXEC, [];
    }

    method SetConfigmode(mode: int)
      modifies this
      ensures State() == old(State()).Set(mode)
    {
      this.mode := mode;
      if mode == MODE_CONFIG || mode == MODE_EXEC {
        modeStack := [];
      }
    }

    method PushConfigmode(mode: int, desc: string)
      modifies this
      ensures State() == old(State()).Push(mode, desc)
    {
      SetConfigmode(mode);
      modeStack := modeStack + [Entry(mode, desc)];
    }

    method Exit() returns (quit: bool)
      modifies this
      ensures State() == old(State()).Exit()
      ensures quit <==> |old(modeStack)| <= 1 && old(mode) == MODE_EXEC
    {
      if modeStack != [] {
        if |modeStack| > 1 {
          modeStack := modeStack[..|modeStack| - 1];
          SetConfigmode(modeStack[|modeStack| - 1].mode);
          return false;
        }
        modeStack := [];
      }
      if mode == MODE_EXEC {
        SetConfigmode(MODE_EXEC);
        return true;
      }
      if mode != MODE_CONFIG && mode != MODE_EXEC {
        SetConfigmode(MODE_CONFIG);
      } else {
        SetConfigmode(MODE_EXEC);
      }
      return false;
    }
  }

  /** Pushing a mode of its own and exiting it again restores the state. */
  lemma ExitUndoesPush(s: ModeState, mode: int, desc: string)
    requires s.Consistent() && mode > MODE_CONFIG
    requires s.stack != [] || s.mode == MODE_CONFIG
    requires s.mode == MODE_CONFIG ==> s.stack == []
    ensures s.Push(mode, desc).Consistent()
    ensures s.Push(mode, desc).Exit() == s
  {
    var p := s.Push(mode, desc);
    assert p.stack[..|p.stack| - 1] == s.stack;
    if s.stack != [] {
      assert s.stack[|s.stack| - 1] in s.stack;
    }
  }
}
