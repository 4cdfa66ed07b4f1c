/** The header (src/components/Header.tsx): the new-todo form, its validation,
    and the toggle-all button. */
module HeaderComponent {
  import opened TodoTypes
  import opened Text

  /** Delay before the empty-title error is cleared again, in milliseconds. */
  const EMPTY_TITLE_RESET_MS: nat := 3000

  /** A call the header makes on its parent: `onAdd(title)` or `onError(message)`. */
  datatype Callback = OnAdd(title: string) | OnError(message: ErrorMessage)

  /** The calls a submit of `title` makes right away: exactly one, either
      `onAdd` with the trimmed, non-blank title or `onError(EMPTY_TITLE)`. */
  function SubmitCallbacks(title: string): (calls: seq<Callback>)
    ensures |calls| == 1
    ensures calls[0].OnAdd? <==> !IsBlank(title)
    ensures calls[0].OnAdd? ==>
      calls[0].title == Trim(title) && calls[0].title != [] && Trim(calls[0].title) == calls[0].title
    ensures calls[0].OnError? ==> calls[0].message == EmptyTitle
  {
    TrimIdempotent(title);
    var trimmedTitle := Trim(title);
    if trimmedTitle == [] then [OnError(EmptyTitle)] else [OnAdd(trimmedTitle)]
  }

  /** Submitting "  Buy milk  " asks the parent to add "Buy milk". */
  lemma SubmitTrimsExample()
    ensures SubmitCallbacks("  Buy milk  ") == [OnAdd("Buy milk")]
  {
    var s := "  Buy milk  ";
    assert !IsWhitespace('B') && !IsWhitespace('k');
    assert LeadingBlank("Buy milk  ") == 0;
    assert LeadingBlank(" Buy milk  ") == 1 by { assert " Buy milk  "[1..] == "Buy milk  "; }
    assert LeadingBlank(s) == 2 by { assert s[1..] == " Buy milk  "; }
    assert TrailingBlankStart("  Buy milk") == 10;
    assert TrailingBlankStart("  Buy milk ") == 10 by { assert "  Buy milk "[..10] == "  Buy milk"; }
    assert TrailingBlankStart(s) == 10 by { assert s[..11] == "  Buy milk "; }
    assert s[2..10] == "Buy milk";
  }

  /** What the header renders: the toggle-all button (absent, or present with
      its `active` mark) and whether the new-todo input is disabled. */
  datatype HeaderView = HeaderView(toggleAll: Option<bool>, inputDisabled: bool)

  /** The button exists only while nothing loads and the list is non-empty;
      the input is disabled while anything loads. */
  function View(todos: seq<Todo>, isLoading: bool, isAllCompleted: bool): HeaderView {
    HeaderView(if !isLoading && |todos| > 0 then Some(isAllCompleted) else None, isLoading)
  }

  /** The header's state: the text of the new-todo input and the number of
      empty-title resets scheduled but not yet fired. */
  class Header {
    var title: string
    var pendingResets: nat

    constructor ()
      ensures title == [] && pendingResets == 0
    {
      title := [];
      pendingResets := 0;
    }

    /** Typing in the new-todo input. */
    method HandleTitleChange(value: string)
      modifies this
      ensures title == value && pendingResets == old(pendingResets)
    {
      title := value;
    }

    /** Submitting the form: reports the empty-title error and schedules its
        reset, or asks the parent to add the trimmed title. The input keeps its
        text until the reset effect clears it. */
    method HandleSubmit() returns (calls: seq<Callback>)
      modifies this
      ensures calls == SubmitCallbacks(old(title))
      ensures title == old(title)
      ensures pendingResets == old(pendingResets) + if IsBlank(title) then 1 else 0
    {
      calls := SubmitCallbacks(title);
      if calls[0].OnError? {
        pendingResets := pendingResets + 1;
      }
    }

    /** A scheduled reset fires `EMPTY_TITLE_RESET_MS` after its submit and
        clears the banner. */
    method ResetTimerFires() returns (calls: seq<Callback>)
      requires pendingResets > 0
      modifies this
      ensures calls == [OnError(Default)]
      ensures pendingResets == old(pendingResets) - 1 && title == old(title)
    {
      calls := [OnError(Default)];
      pendingResets := pendingResets - 1;
    }

    /** The effect that runs when `isLoading` or `isError` changes: the input is
        cleared once nothing is loading and no error is shown. */
    method ResetTitleEffect(isLoading: bool, isError: bool)
      modifies this
      ensures title == if !isLoading && !isError then [] else old(title)
      ensures pendingResets == old(pendingResets)
    {
      if !isLoading && !isError {
        title := [];
      }
    }
  }
}
