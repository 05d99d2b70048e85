/**
 * The prompter collaborator of `compileOs`: the scripted `VirtualPrompter`, which records
 * every message it is given and answers yes/no questions from a canned configuration, and
 * the key rule of the terminal prompter's yes/no question.
 */
module Prompter {
  import opened Wrappers

  /** What `waitForAnyKey` shows when it is given no message (or an empty one). */
  const DefaultKeyMessage := "Press any key to continue..."

  /** The key code `VirtualPrompter.waitForAnyKey` reports: '\n'. */
  const NewlineKeyCode := 10

  /** The byte a raw-mode terminal delivers for Ctrl-C. */
  const CtrlC: bv8 := 3

  /** What the terminal prompter prints for a Ctrl-C before it exits. */
  const InterruptEcho := "^C"

  /**
   * How a `VirtualPrompter` answers yes/no questions: always the same boolean, or a callback.
   * The callback sees the prompt and how many times it was called before, which is the state
   * the callbacks of the test suite keep in their closures.
   */
  datatype YesNoResponses = Always(answer: bool) | Callback(respond: (string, nat) -> bool)

  /** The answer given to `prompt` when the callback has been called `calls` times before. */
  function Answer(responses: YesNoResponses, prompt: string, calls: nat): bool {
    match responses
    case Always(b) => b
    case Callback(f) => f(prompt, calls)
  }

  /** The number of callback calls once `prompt` has been answered. */
  function CallsAfter(responses: YesNoResponses, calls: nat): nat {
    if responses.Callback? then calls + 1 else calls
  }

  /** `message || 'Press any key to continue...'`: an absent or empty message gives the default. */
  function KeyMessage(message: Option<string>): (shown: string)
    ensures shown != []
    ensures message.Some? && message.value != [] ==> shown == message.value
  {
    if message.Some? && message.value != [] then message.value else DefaultKeyMessage
  }

  /** A prompter that logs every message it is given and answers yes/no questions from a script. */
  class VirtualPrompter {
    /** Every message reported or prompted, in call order. */
    var messages: seq<string>
    var yesNoResponses: YesNoResponses
    /** How many times the callback has been consulted. */
    var callbackCalls: nat

    constructor (yesNoResponses: YesNoResponses)
      ensures messages == [] && this.yesNoResponses == yesNoResponses && callbackCalls == 0
    {
      messages := [];
      this.yesNoResponses := yesNoResponses;
      callbackCalls := 0;
    }

    method Report(message: string)
      modifies this
      ensures messages == old(messages) + [message]
      ensures yesNoResponses == old(yesNoResponses) && callbackCalls == old(callbackCalls)
    {
      messages := messages + [message];
    }

    method ReportError(message: string)
      modifies this
      ensures messages == old(messages) + [message]
      ensures yesNoResponses == old(yesNoResponses) && callbackCalls == old(callbackCalls)
    {
      messages := messages + [message];
    }

    method ReportSuccess(message: string)
      modifies this
      ensures messages == old(messages) + [message]
      ensures yesNoResponses == old(yesNoResponses) && callbackCalls == old(callbackCalls)
    {
      messages := messages + [message];
    }

    /** Logs the prompt, then answers with the configured boolean or asks the callback. */
    method PromptYesNo(message: string) returns (answer: bool)
      modifies this
      ensures messages == old(messages) + [message]
      ensures yesNoResponses == old(yesNoResponses)
      ensures answer == Answer(old(yesNoResponses), message, old(callbackCalls))
      ensures callbackCalls == CallsAfter(old(yesNoResponses), old(callbackCalls))
    {
      Report(message);
      if yesNoResponses.Always? {
        return yesNoResponses.answer;
      }
      answer := yesNoResponses.respond(message, callbackCalls);
      callbackCalls := callbackCalls + 1;
    }

    /** Logs the message (or the default one) and reports the newline key. */
    method WaitForAnyKey(message: Option<string>) returns (key: int)
      modifies this
      ensures messages == old(messages) + [KeyMessage(message)]
      ensures key == NewlineKeyCode
      ensures yesNoResponses == old(yesNoResponses) && callbackCalls == old(callbackCalls)
    {
      Report(KeyMessage(message));
      key := NewlineKeyCode;
    }
  }

  // ---------------------------------------------------------------------------
  // The terminal prompter's yes/no loop
  // ---------------------------------------------------------------------------

  /** How a terminal yes/no question ends. */
  datatype KeyAnswer =
    | Answered(yes: bool)
    /** Ctrl-C: "^C" is printed and the process exits with code 1. */
    | Interrupted
    /** The recorded key presses ran out before a decisive key (the terminal would keep waiting). */
    | Exhausted

  /** Whether the byte is the character code of `c`. */
  predicate IsKey(b: bv8, c: char) {
    b as int == c as int
  }

  /**
   * What one chunk of raw terminal input decides: Ctrl-C first, then Y/y or N/n on its first
   * byte. Any other key, or an empty chunk (whose first byte is `undefined`), decides nothing.
   */
  function Decision(chunk: seq<bv8>): (d: Option<KeyAnswer>)
    ensures d != Some(Exhausted)
    ensures d.Some? <==> |chunk| > 0 && (chunk[0] == CtrlC || AnswersWith(chunk, true) || AnswersWith(chunk, false))
  {
    if |chunk| == 0 then None
    else if chunk[0] == CtrlC then Some(Interrupted)
    else if IsKey(chunk[0], 'Y') || IsKey(chunk[0], 'y') then Some(Answered(true))
    else if IsKey(chunk[0], 'N') || IsKey(chunk[0], 'n') then Some(Answered(false))
    else None
  }

  /** The index of the first decisive chunk, or `|keys|` if there is none. */
  function FirstDecisive(keys: seq<seq<bv8>>): (i: nat)
    ensures i <= |keys|
    ensures forall j :: 0 <= j < i ==> Decision(keys[j]).None?
    ensures i < |keys| ==> Decision(keys[i]).Some?
  {
    if |keys| == 0 then 0
    else if Decision(keys[0]).Some? then 0
    else 1 + FirstDecisive(keys[1..])
  }

  /** How the question ends on the given key presses. */
  function PromptOutcome(keys: seq<seq<bv8>>): KeyAnswer {
    var i := FirstDecisive(keys);
    if i < |keys| then Decision(keys[i]).value else Exhausted
  }

  /** The number of chunks read before the question ends. */
  function KeysRead(keys: seq<seq<bv8>>): (n: nat)
    ensures n <= |keys|
  {
    var i := FirstDecisive(keys);
    if i < |keys| then i + 1 else |keys|
  }

  /** `n` copies of the line `line`. */
  function Lines(line: string, n: nat): (r: seq<string>)
    ensures |r| == n
    ensures forall k :: 0 <= k < n ==> r[k] == line
  {
    if n == 0 then [] else Lines(line, n - 1) + [line]
  }

  /**
   * `OsPrompter.promptYesNo`: shows "<message> [Y/N]" and reads a key, again and again, until
   * a Y/y (true) or N/n (false) arrives; Ctrl-C prints "^C" and ends the process.
   */
  method TerminalPromptYesNo(message: string, keys: seq<seq<bv8>>) returns (outcome: KeyAnswer, console: seq<string>)
    ensures outcome == PromptOutcome(keys)
    ensures console == Lines(message + " [Y/N]", KeysRead(keys))
                       + (if outcome == Interrupted then [InterruptEcho]
                          else if outcome == Exhausted then [message + " [Y/N]"]
                          else [])
  {
    var prompt := message + " [Y/N]";
    console := [];
    var i := 0;
    while i < |keys|
      invariant i <= |keys|
      invariant forall j :: 0 <= j < i ==> Decision(keys[j]).None?
      invariant console == Lines(prompt, i)
    {
      // waitForAnyKey: show the prompt, read one chunk
      console := console + [prompt];
      var data := keys[i];
      if |data| > 0 && data[0] == CtrlC {
        console := console + [InterruptEcho];
        return Interrupted, console;
      }
      var key: Option<bv8> := if |data| > 0 then Some(data[0]) else None;
      if key.Some? && (IsKey(key.value, 'Y') || IsKey(key.value, 'y')) {
        return Answered(true), console;
      } else if key.Some? && (IsKey(key.value, 'N') || IsKey(key.value, 'n')) {
        return Answered(false), console;
      }
      i := i + 1;
    }
    // the prompt is shown once more before waiting for a key that never comes
    console := console + [prompt];
    outcome := Exhausted;
  }

  /** The key that answers `yes`: Y or y for true, N or n for false. */
  predicate AnswersWith(chunk: seq<bv8>, yes: bool) {
    && |chunk| > 0
    && (yes ==> IsKey(chunk[0], 'Y') || IsKey(chunk[0], 'y'))
    && (!yes ==> IsKey(chunk[0], 'N') || IsKey(chunk[0], 'n'))
  }

  /** A chunk that is not Ctrl-C, Y/y or N/n is ignored: the question is asked again. */
  lemma OtherKeysAskAgain(chunk: seq<bv8>, keys: seq<seq<bv8>>)
    requires |chunk| == 0 || (chunk[0] != CtrlC && !AnswersWith(chunk, true) && !AnswersWith(chunk, false))
    ensures PromptOutcome([chunk] + keys) == PromptOutcome(keys)
    ensures KeysRead([chunk] + keys) == 1 + KeysRead(keys)
  {
    assert ([chunk] + keys)[1..] == keys;
  }

  /**
   * The answer is `yes` exactly when some key answers `yes` and every key before it is neither
   * Ctrl-C nor a Y/y/N/n.
   */
  lemma {:induction false} PromptAnswersAtFirstYesOrNo(keys: seq<seq<bv8>>, yes: bool)
    ensures PromptOutcome(keys) == Answered(yes) <==>
      exists i :: 0 <= i < |keys| && AnswersWith(keys[i], yes) &&
        (forall j :: 0 <= j < i ==> Decision(keys[j]).None?)
  {
    var f := FirstDecisive(keys);
    if PromptOutcome(keys) == Answered(yes) {
      assert AnswersWith(keys[f], yes);
    }
    if exists i :: 0 <= i < |keys| && AnswersWith(keys[i], yes) && (forall j :: 0 <= j < i ==> Decision(keys[j]).None?) {
      var i :| 0 <= i < |keys| && AnswersWith(keys[i], yes) && (forall j :: 0 <= j < i ==> Decision(keys[j]).None?);
      assert keys[i][0] != CtrlC;
      assert Decision(keys[i]) == Some(Answered(yes));
      assert f == i;
    }
  }

  /** Ctrl-C ends the question exactly when it comes before any Y/y/N/n key. */
  lemma {:induction false} PromptInterruptedAtCtrlC(keys: seq<seq<bv8>>)
    ensures PromptOutcome(keys) == Interrupted <==>
      exists i :: 0 <= i < |keys| && |keys[i]| > 0 && keys[i][0] == CtrlC &&
        (forall j :: 0 <= j < i ==> Decision(keys[j]).None?)
  {
    var f := FirstDecisive(keys);
    if exists i :: 0 <= i < |keys| && |keys[i]| > 0 && keys[i][0] == CtrlC && (forall j :: 0 <= j < i ==> Decision(keys[j]).None?) {
      var i :| 0 <= i < |keys| && |keys[i]| > 0 && keys[i][0] == CtrlC && (forall j :: 0 <= j < i ==> Decision(keys[j]).None?);
      assert Decision(keys[i]).Some?;
      assert f == i;
    }
  }

  /** "q", then "y": asked twice, answered yes. Ctrl-C stops before a later "n". */
  lemma TerminalPromptExamples()
    ensures PromptOutcome([[113], [121]]) == Answered(true)
    ensures KeysRead([[113], [121]]) == 2
    ensures PromptOutcome([[], [78, 121]]) == Answered(false)
    ensures PromptOutcome([[3], [110]]) == Interrupted
    ensures PromptOutcome([[65], [66]]) == Exhausted
  {
    assert Decision([113]) == None;
    assert Decision([121]) == Some(Answered(true));
    assert FirstDecisive([[113], [121]]) == 1 by {
      assert [[113], [121]][1..] == [[121 as bv8]];
    }
    assert Decision([78, 121]) == Some(Answered(false));
    assert FirstDecisive([[], [78, 121]]) == 1 by {
      assert [[], [78, 121]][1..] == [[78 as bv8, 121]];
    }
    assert Decision([65]) == None && Decision([66]) == None;
    assert FirstDecisive([[65], [66]]) == 2 by {
      assert [[65], [66]][1..] == [[66 as bv8]];
      assert [[66 as bv8]][1..] == [];
    }
  }
}
