// The editor modes the client can be told about, and the category tests
// the front end asks of them.

module Modes {
  import opened Common

  /** The modes are an enumeration over a 64-bit integer, numbered from 0 in declaration order. */
  type Mode = x: nat | x < 32

  // the state of the query itself
  const CANCELLED: Mode := 0
  const TIMED_OUT: Mode := 1
  const UNKNOWN: Mode := 2
  // the modes the mode() function reports
  const EX_MODE_VIM: Mode := 3
  const EX_MODE: Mode := 4
  const PROMPT_ENTER: Mode := 5
  const PROMPT_MORE: Mode := 6
  const PROMPT_CONFIRM: Mode := 7
  const TERMINAL: Mode := 8
  const COMMAND_LINE: Mode := 9
  const NORMAL: Mode := 10
  const NORMAL_CTRLI_INSERT: Mode := 11
  const NORMAL_CTRLI_REPLACE: Mode := 12
  const NORMAL_CTRLI_VIRTUAL_REPLACE: Mode := 13
  const OPERATOR_PENDING: Mode := 14
  const OPERATOR_PENDING_FORCED_CHAR: Mode := 15
  const OPERATOR_PENDING_FORCED_LINE: Mode := 16
  const OPERATOR_PENDING_FORCED_BLOCK: Mode := 17
  const VISUAL_CHAR: Mode := 18
  const VISUAL_LINE: Mode := 19
  const VISUAL_BLOCK: Mode := 20
  const SELECT_CHAR: Mode := 21
  const SELECT_LINE: Mode := 22
  const SELECT_BLOCK: Mode := 23
  const INSERT: Mode := 24
  const INSERT_COMPLETION: Mode := 25
  const INSERT_COMPLETION_CTRLX: Mode := 26
  const REPLACE: Mode := 27
  const REPLACE_COMPLETION: Mode := 28
  const REPLACE_COMPLETION_CTRLX: Mode := 29
  const REPLACE_VIRTUAL: Mode := 30
  const SHELL: Mode := 31

  predicate IsExMode(m: Mode)
  {
    m == EX_MODE || m == EX_MODE_VIM
  }

  predicate IsVisualMode(m: Mode)
  {
    m == VISUAL_BLOCK || m == VISUAL_CHAR || m == VISUAL_LINE
  }

  predicate IsNormalMode(m: Mode)
  {
    m == NORMAL || m == NORMAL_CTRLI_INSERT || m == NORMAL_CTRLI_REPLACE || m == NORMAL_CTRLI_VIRTUAL_REPLACE
  }

  predicate IsSelectMode(m: Mode)
  {
    m == SELECT_BLOCK || m == SELECT_CHAR || m == SELECT_LINE
  }

  predicate IsInsertMode(m: Mode)
  {
    m == INSERT || m == INSERT_COMPLETION || m == INSERT_COMPLETION_CTRLX
  }

  predicate IsReplaceMode(m: Mode)
  {
    m == REPLACE || m == REPLACE_COMPLETION || m == REPLACE_COMPLETION_CTRLX || m == REPLACE_VIRTUAL
  }

  predicate IsCommandLineMode(m: Mode)
  {
    m == COMMAND_LINE
  }

  predicate IsTerminalMode(m: Mode)
  {
    m == TERMINAL
  }

  predicate IsOperatorPending(m: Mode)
  {
    m == OPERATOR_PENDING || m == OPERATOR_PENDING_FORCED_CHAR || m == OPERATOR_PENDING_FORCED_LINE ||
    m == OPERATOR_PENDING_FORCED_BLOCK
  }

  predicate IsPrompt(m: Mode)
  {
    m == PROMPT_ENTER || m == PROMPT_MORE || m == PROMPT_CONFIRM
  }

  predicate IsBusy(m: Mode)
  {
    m == CANCELLED || m == TIMED_OUT || m == UNKNOWN
  }

  /** The categories the tests sort modes into. */
  datatype Group =
    | ExGroup | VisualGroup | NormalGroup | SelectGroup | InsertGroup | ReplaceGroup
    | CommandLineGroup | TerminalGroup | OperatorGroup | PromptGroup | BusyGroup

  /**
   * An independent statement of the grouping: the enumeration lists the
   * members of each group next to each other, so each group is a range of
   * values. The shell mode is in no group.
   */
  function GroupOf(m: Mode): (g: Option<Group>)
    ensures g.None? <==> m == SHELL
  {
    if m <= UNKNOWN then Some(BusyGroup)
    else if m <= EX_MODE then Some(ExGroup)
    else if m <= PROMPT_CONFIRM then Some(PromptGroup)
    else if m == TERMINAL then Some(TerminalGroup)
    else if m == COMMAND_LINE then Some(CommandLineGroup)
    else if m <= NORMAL_CTRLI_VIRTUAL_REPLACE then Some(NormalGroup)
    else if m <= OPERATOR_PENDING_FORCED_BLOCK then Some(OperatorGroup)
    else if m <= VISUAL_BLOCK then Some(VisualGroup)
    else if m <= SELECT_BLOCK then Some(SelectGroup)
    else if m <= INSERT_COMPLETION_CTRLX then Some(InsertGroup)
    else if m <= REPLACE_VIRTUAL then Some(ReplaceGroup)
    else None
  }

  /** The test of group g. */
  predicate InGroup(m: Mode, g: Group)
  {
    match g
    case ExGroup => IsExMode(m)
    case VisualGroup => IsVisualMode(m)
    case NormalGroup => IsNormalMode(m)
    case SelectGroup => IsSelectMode(m)
    case InsertGroup => IsInsertMode(m)
    case ReplaceGroup => IsReplaceMode(m)
    case CommandLineGroup => IsCommandLineMode(m)
    case TerminalGroup => IsTerminalMode(m)
    case OperatorGroup => IsOperatorPending(m)
    case PromptGroup => IsPrompt(m)
    case BusyGroup => IsBusy(m)
  }

  /** Each test holds exactly for the modes of its group. */
  lemma TestsMatchGroups(m: Mode, g: Group)
    ensures InGroup(m, g) <==> GroupOf(m) == Some(g)
  {
  }

  /** The groups are pairwise disjoint: a mode passes at most one test. */
  lemma PairwiseDisjoint(m: Mode, g: Group, h: Group)
    requires InGroup(m, g) && InGroup(m, h)
    ensures g == h
  {
    TestsMatchGroups(m, g);
    TestsMatchGroups(m, h);
  }

  /** Every mode but the shell passes some test. */
  lemma OnlyShellUngrouped(m: Mode)
    ensures (exists g :: InGroup(m, g)) <==> m != SHELL
  {
    if m != SHELL {
      TestsMatchGroups(m, GroupOf(m).value);
    } else {
      forall g ensures !InGroup(m, g) {
        TestsMatchGroups(m, g);
      }
    }
  }
}
