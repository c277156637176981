/**
 * The explorer's view state: the module-level variables of the page script and
 * the parts of the page its handlers change (tab buttons, model columns, grid,
 * counters, overlay), with one method per handler.
 */
module Explorer {
  import opened Wrappers
  import opened Strings
  import opened Format
  import opened Cases

  /** One multiple-choice item of a session; an absent `content` reads as "". */
  datatype McqItem = McqItem(content: string, randomAnswer: string)

  /**
   * An OSCE session: its items by JSON field name (`mcq_1`, `mcq_2`, `mcq_3`) and its
   * evaluation text; an absent evaluation reads as "".
   */
  datatype Session = Session(items: map<string, McqItem>, evaluation: string)

  datatype ModelRecord = ModelRecord(osceSession: Option<Session>)

  /** The detail record of one case, as the detail request returns it. */
  datatype CaseDetail = CaseDetail(
    caseId: int,
    subspecialty: string,
    citation: string,
    accessRestricted: bool,
    models: map<string, ModelRecord>)

  /** `currentView`: `'mcq'` or `'eval'`. */
  datatype View = McqView | EvalView

  /** A tab button: its `data-question` ("1", "2", "3" or "eval"), its two classes and its caption. */
  datatype Tab = Tab(question: string, active: bool, locked: bool, caption: string)

  /** A model column: its `data-model` and the HTML of its content area. */
  datatype Column = Column(modelId: string, content: string)

  /** The grid area: the shown cases with their cards, or the index-load failure message. */
  datatype Grid = Cards(shown: seq<CaseEntry>, cards: seq<Card>) | IndexLoadFailed

  const NoData := "<em>No data available</em>"
  const NoEvaluation := "<em>No evaluation available</em>"
  const FailedToLoad := "<em>Failed to load data</em>"
  const Loading := "<p class=\"loading\">Loading...</p>"
  const LockSuffix := " \U{1F512}"

  predicate IsQuestion(q: string)
  {
    q == "1" || q == "2" || q == "3" || q == "eval"
  }

  /** The number a question tab selects. */
  function QuestionNumber(q: string): (n: int)
    requires q == "1" || q == "2" || q == "3"
    ensures 1 <= n <= 3
    ensures IntToString(n) == q
  {
    assert IsIntLiteral(q) && DigitValue(q[0]) == ParseNat(q);
    ParseInt(q)
  }

  /** The label of a tab when it is not locked. */
  function BaseLabel(q: string): string
  {
    if q == "eval" then "Evaluation" else "MCQ " + q
  }

  /** The JSON field of the selected question: `mcq_<n>`. */
  function McqKey(n: int): string
  {
    "mcq_" + IntToString(n)
  }

  function RandomAnswerLine(answer: string): string
  {
    "<div class=\"random-answer\">Random Answer: " + answer + "</div>"
  }

  /** `${currentCaseId}` where `null` prints as "null". */
  function IdText(id: Option<int>): string
  {
    if id.Some? then IntToString(id.value) else "null"
  }

  /**
   * What `renderModelComparison` writes into the column of `modelId`. A column is
   * left empty exactly when no case is loaded or the loaded case is restricted.
   */
  function ColumnContent(data: Option<CaseDetail>, view: View, selectedMcq: int, modelId: string): (html: string)
    ensures html == "" <==> data.None? || data.value.accessRestricted
    ensures data.Some? && !data.value.accessRestricted && modelId !in data.value.models ==> html == NoData
  {
    if data.None? || data.value.accessRestricted then ""
    else if modelId !in data.value.models then NoData
    else
      var session := data.value.models[modelId].osceSession;
      match view
      case EvalView =>
        var evaluation := if session.Some? then session.value.evaluation else "";
        if evaluation != "" then FormatContent(evaluation) else NoEvaluation
      case McqView =>
        if session.Some? && McqKey(selectedMcq) in session.value.items then
          var item := session.value.items[McqKey(selectedMcq)];
          FormatContent(item.content) + RandomAnswerLine(item.randomAnswer)
        else NoData
  }

  /** A model without session data shows a placeholder in either view. */
  lemma MissingSessionPlaceholder(d: CaseDetail, view: View, selectedMcq: int, modelId: string)
    requires !d.accessRestricted && modelId in d.models && d.models[modelId].osceSession.None?
    ensures ColumnContent(Some(d), view, selectedMcq, modelId) == if view == EvalView then NoEvaluation else NoData
  {
  }

  /**
   * In the evaluation view a model with session data shows its formatted evaluation,
   * or the placeholder when the evaluation is empty.
   */
  lemma EvalColumnShowsEvaluation(d: CaseDetail, selectedMcq: int, modelId: string)
    requires !d.accessRestricted && modelId in d.models
    requires d.models[modelId].osceSession.Some?
    ensures var evaluation := d.models[modelId].osceSession.value.evaluation;
            var html := ColumnContent(Some(d), EvalView, selectedMcq, modelId);
            && (evaluation == "" ==> html == NoEvaluation)
            && (evaluation != "" ==> html == FormatContent(evaluation) && html[..3] == "<p>")
  {
  }

  /** In the MCQ view a model whose session lacks the selected question shows `No data available`. */
  lemma McqColumnMissingItem(d: CaseDetail, selectedMcq: int, modelId: string)
    requires !d.accessRestricted && modelId in d.models
    requires d.models[modelId].osceSession.Some?
    requires McqKey(selectedMcq) !in d.models[modelId].osceSession.value.items
    ensures ColumnContent(Some(d), McqView, selectedMcq, modelId) == NoData
  {
  }

  /**
   * In the MCQ view a present item shows its formatted content, which opens a
   * paragraph, followed by its random answer.
   */
  lemma McqColumnShowsItem(d: CaseDetail, selectedMcq: int, modelId: string)
    requires !d.accessRestricted && modelId in d.models
    requires d.models[modelId].osceSession.Some?
    requires McqKey(selectedMcq) in d.models[modelId].osceSession.value.items
    ensures var item := d.models[modelId].osceSession.value.items[McqKey(selectedMcq)];
            var html := ColumnContent(Some(d), McqView, selectedMcq, modelId);
            && html == FormatContent(item.content) + RandomAnswerLine(item.randomAnswer)
            && (item.content != "" ==> html[..3] == "<p>")
  {
  }

  /** The evaluation view does not depend on which question was last selected. */
  lemma EvalIgnoresSelectedMcq(data: Option<CaseDetail>, m1: int, m2: int, modelId: string)
    ensures ColumnContent(data, EvalView, m1, modelId) == ColumnContent(data, EvalView, m2, modelId)
  {
  }

  /** The columns after a render: same models, content from `ColumnContent`. */
  function Rendered(cols: seq<Column>, data: Option<CaseDetail>, view: View, selectedMcq: int): (r: seq<Column>)
    ensures |r| == |cols|
    ensures forall j :: 0 <= j < |cols| ==> r[j].modelId == cols[j].modelId
    ensures forall j :: 0 <= j < |cols| ==> r[j].content == ColumnContent(data, view, selectedMcq, cols[j].modelId)
  {
    seq(|cols|, j requires 0 <= j < |cols| => Column(cols[j].modelId, ColumnContent(data, view, selectedMcq, cols[j].modelId)))
  }

  class ExplorerState {
    var caseIndex: seq<CaseEntry>
    var filteredCases: seq<CaseEntry>
    var currentCaseId: Option<int>
    var currentCaseData: Option<CaseDetail>
    var currentView: View
    var selectedMcq: int

    /** The `data-theme` attribute of the document. */
    var theme: Option<string>
    /** The options appended to the subspecialty dropdown. */
    var subspecialtyOptions: seq<string>
    var grid: Grid
    var metrics: Metrics
    /** The grid is shown and the detail panel hidden, or the other way round. */
    var gridVisible: bool
    var restrictedOverlayVisible: bool
    var caseTitle: string
    const tabs: array<Tab>
    const columns: array<Column>

    ghost predicate Valid()
      reads this, tabs
    {
      && (forall j :: 0 <= j < tabs.Length ==> IsQuestion(tabs[j].question))
      && 1 <= selectedMcq <= 3
      && (grid.Cards? ==> grid.cards == CardsOf(grid.shown))
    }

    /** The page as loaded: the given tab buttons and model columns, nothing fetched yet. */
    constructor (initialTabs: seq<Tab>, initialColumns: seq<Column>, savedTheme: string)
      requires forall t :: t in initialTabs ==> IsQuestion(t.question)
      ensures Valid() && fresh(tabs) && fresh(columns)
      ensures tabs[..] == initialTabs && columns[..] == initialColumns
      ensures caseIndex == [] && filteredCases == [] && currentCaseId == None && currentCaseData == None
      ensures currentView == McqView && selectedMcq == 1 && gridVisible
      ensures theme == Some(savedTheme) && subspecialtyOptions == []
    {
      caseIndex, filteredCases := [], [];
      currentCaseId, currentCaseData := None, None;
      currentView, selectedMcq := McqView, 1;
      theme := Some(savedTheme);
      subspecialtyOptions := [];
      grid := Cards([], []);
      metrics := Metrics(0, 0, 0);
      gridVisible, restrictedOverlayVisible := true, false;
      caseTitle := "";
      tabs := new Tab[|initialTabs|](j requires 0 <= j < |initialTabs| => initialTabs[j]);
      columns := new Column[|initialColumns|](j requires 0 <= j < |initialColumns| => initialColumns[j]);
    }

    /** `toggleTheme`: the document switches to the other theme. */
    method ToggleTheme()
      modifies this`theme
      ensures theme == Some(NextTheme(old(theme)))
    {
      theme := Some(NextTheme(theme));
    }

    /**
     * `loadCaseIndex` after its request: `None` stands for a failed request or an
     * unreadable response, which leaves the failure message in the grid.
     */
    method LoadCaseIndex(response: Option<seq<CaseEntry>>)
      requires Valid()
      modifies this`caseIndex, this`subspecialtyOptions, this`grid, this`metrics
      ensures Valid()
      ensures response.None? ==> grid == IndexLoadFailed && caseIndex == old(caseIndex)
                                 && subspecialtyOptions == old(subspecialtyOptions) && metrics == old(metrics)
      ensures response.Some? ==> && caseIndex == response.value
                                 && subspecialtyOptions == old(subspecialtyOptions) + SubspecialtyOptions(caseIndex)
                                 && grid == Cards(CasesToRender(filteredCases, caseIndex), CardsOf(CasesToRender(filteredCases, caseIndex)))
                                 && metrics == GridMetrics(CasesToRender(filteredCases, caseIndex))
    {
      if response.None? {
        grid := IndexLoadFailed;
        return;
      }
      caseIndex := response.value;
      InitFilters();
      RenderCaseGrid();
    }

    /** `initFilters`: one option per distinct subspecialty, in sorted order. */
    method InitFilters()
      modifies this`subspecialtyOptions
      ensures subspecialtyOptions == old(subspecialtyOptions) + SubspecialtyOptions(caseIndex)
    {
      AppendOptions(SubspecialtyOptions(caseIndex));
    }

    /** The loop of `initFilters`: each value becomes one more option of the dropdown. */
    method AppendOptions(values: seq<string>)
      modifies this`subspecialtyOptions
      ensures subspecialtyOptions == old(subspecialtyOptions) + values
    {
      var i := 0;
      while i < |values|
        invariant 0 <= i <= |values|
        invariant subspecialtyOptions == old(subspecialtyOptions) + values[..i]
      {
        subspecialtyOptions := subspecialtyOptions + [values[i]];
        i := i + 1;
      }
    }

    /** `renderCaseGrid`: the cards and counters of the shown cases. */
    method RenderCaseGrid()
      requires Valid()
      modifies this`grid, this`metrics
      ensures Valid()
      ensures grid == Cards(CasesToRender(filteredCases, caseIndex), CardsOf(CasesToRender(filteredCases, caseIndex)))
      ensures metrics == GridMetrics(CasesToRender(filteredCases, caseIndex))
    {
      var casesToRender := if |filteredCases| > 0 then filteredCases else caseIndex;
      metrics := Metrics(|casesToRender|, |casesToRender| * 4, |casesToRender| * 4 * 3);
      grid := Cards(casesToRender, CardsOf(casesToRender));
    }

    /**
     * `filterAndRender` with the dropdown value and the search box text: back to the
     * grid, recompute the filtered list from the whole index, render the grid.
     */
    method FilterAndRender(subspecialty: string, searchInput: string)
      requires Valid()
      modifies this`filteredCases, this`gridVisible, this`currentCaseId, this`currentCaseData, this`grid, this`metrics
      ensures Valid()
      ensures filteredCases == Filter(caseIndex, subspecialty, Lower(searchInput))
      ensures gridVisible && currentCaseId == None && currentCaseData == None
      ensures grid == Cards(CasesToRender(filteredCases, caseIndex), CardsOf(CasesToRender(filteredCases, caseIndex)))
      ensures metrics == GridMetrics(CasesToRender(filteredCases, caseIndex))
    {
      ShowCaseGrid();
      filteredCases := FilterIndex(caseIndex, subspecialty, Lower(searchInput));
      RenderCaseGrid();
    }

    /**
     * A click on the `k`-th card, up to the detail request: the case id is read back
     * from the card, the detail panel replaces the grid and every column shows the
     * loading message. The previously loaded detail stays until the response.
     */
    method OpenCard(k: nat)
      requires Valid() && grid.Cards? && k < |grid.cards|
      modifies this`currentCaseId, this`gridVisible, columns
      ensures Valid()
      ensures currentCaseId == Some(grid.shown[k].caseId)
      ensures !gridVisible
      ensures forall j :: 0 <= j < columns.Length ==> columns[j] == Column(old(columns[j]).modelId, Loading)
    {
      currentCaseId := Some(ParseInt(grid.cards[k].caseIdAttr));
      gridVisible := false;
      var j := 0;
      while j < columns.Length
        modifies columns
        invariant 0 <= j <= columns.Length
        invariant forall m :: 0 <= m < j ==> columns[m] == Column(old(columns[m]).modelId, Loading)
        invariant forall m :: j <= m < columns.Length ==> columns[m] == old(columns[m])
      {
        columns[j] := columns[j].(content := Loading);
        j := j + 1;
      }
    }

    /**
     * The rest of `showCaseDetail` once the detail request settles: `None` is a failed
     * request or unreadable response, which puts the failure message in every column
     * and changes nothing else. A detail record is stored whichever case is open by
     * then, its header is written, and the access gate sets up the tabs before the
     * columns are rendered.
     */
    method CompleteCaseDetail(response: Option<CaseDetail>)
      requires Valid()
      modifies this`currentCaseData, this`caseTitle, this`restrictedOverlayVisible
      modifies this`currentView, this`selectedMcq, tabs, columns
      ensures Valid()
      ensures response.None? ==>
        && currentCaseData == old(currentCaseData) && currentView == old(currentView) && selectedMcq == old(selectedMcq)
        && restrictedOverlayVisible == old(restrictedOverlayVisible) && caseTitle == old(caseTitle)
        && (forall j :: 0 <= j < tabs.Length ==> tabs[j] == old(tabs[j]))
        && (forall j :: 0 <= j < columns.Length ==> columns[j] == Column(old(columns[j]).modelId, FailedToLoad))
      ensures response.Some? ==>
        && currentCaseData == response
        && caseTitle == "Case " + IdText(currentCaseId) + " - " + response.value.subspecialty
        && restrictedOverlayVisible == response.value.accessRestricted
        && columns[..] == Rendered(old(columns[..]), currentCaseData, currentView, selectedMcq)
      ensures response.Some? && response.value.accessRestricted ==>
        && currentView == old(currentView) && selectedMcq == old(selectedMcq)
        && (forall j :: 0 <= j < tabs.Length ==>
              tabs[j] == Tab(old(tabs[j]).question, false, true, BaseLabel(old(tabs[j]).question) + LockSuffix))
      ensures response.Some? && !response.value.accessRestricted ==>
        && currentView == McqView && selectedMcq == 1
        && (forall j :: 0 <= j < tabs.Length ==>
              tabs[j] == Tab(old(tabs[j]).question, old(tabs[j]).question == "1", false, BaseLabel(old(tabs[j]).question)))
    {
      if response.None? {
        ShowLoadFailure();
        return;
      }
      var detail := response.value;
      currentCaseData := response;
      caseTitle := "Case " + IdText(currentCaseId) + " - " + detail.subspecialty;
      if detail.accessRestricted {
        restrictedOverlayVisible := true;
        LockTabs();
      } else {
        restrictedOverlayVisible := false;
        selectedMcq := 1;
        currentView := McqView;
        UnlockTabs();
      }
      RenderModelComparison();
    }

    /** The failure branch of `showCaseDetail`: every column reports the failed load. */
    method ShowLoadFailure()
      modifies columns
      ensures forall j :: 0 <= j < columns.Length ==> columns[j] == Column(old(columns[j]).modelId, FailedToLoad)
    {
      var j := 0;
      while j < columns.Length
        invariant 0 <= j <= columns.Length
        invariant forall m :: 0 <= m < j ==> columns[m] == Column(old(columns[m]).modelId, FailedToLoad)
        invariant forall m :: j <= m < columns.Length ==> columns[m] == old(columns[m])
      {
        columns[j] := columns[j].(content := FailedToLoad);
        j := j + 1;
      }
    }

    /** The restricted branch of the access gate: every tab locked, none active, labels with a lock. */
    method LockTabs()
      modifies tabs
      ensures forall j :: 0 <= j < tabs.Length ==>
        tabs[j] == Tab(old(tabs[j]).question, false, true, BaseLabel(old(tabs[j]).question) + LockSuffix)
    {
      var j := 0;
      while j < tabs.Length
        invariant 0 <= j <= tabs.Length
        invariant forall m :: 0 <= m < j ==>
          tabs[m] == Tab(old(tabs[m]).question, false, true, BaseLabel(old(tabs[m]).question) + LockSuffix)
        invariant forall m :: j <= m < tabs.Length ==> tabs[m] == old(tabs[m])
      {
        tabs[j] := Tab(tabs[j].question, false, true, BaseLabel(tabs[j].question) + LockSuffix);
        j := j + 1;
      }
    }

    /** The unrestricted branch of the access gate: nothing locked, only question 1 active, plain labels. */
    method UnlockTabs()
      modifies tabs
      ensures forall j :: 0 <= j < tabs.Length ==>
        tabs[j] == Tab(old(tabs[j]).question, old(tabs[j]).question == "1", false, BaseLabel(old(tabs[j]).question))
    {
      var j := 0;
      while j < tabs.Length
        invariant 0 <= j <= tabs.Length
        invariant forall m :: 0 <= m < j ==>
          tabs[m] == Tab(old(tabs[m]).question, old(tabs[m]).question == "1", false, BaseLabel(old(tabs[m]).question))
        invariant forall m :: j <= m < tabs.Length ==> tabs[m] == old(tabs[m])
      {
        var question := tabs[j].question;
        tabs[j] := Tab(question, question == "1", false, BaseLabel(question));
        j := j + 1;
      }
    }

    /** `showCaseGrid`: back to the grid, with no case open. */
    method ShowCaseGrid()
      modifies this`gridVisible, this`currentCaseId, this`currentCaseData
      ensures gridVisible && currentCaseId == None && currentCaseData == None
    {
      gridVisible := true;
      currentCaseId := None;
      currentCaseData := None;
    }

    /**
     * A click on tab `i`. A locked tab changes nothing; otherwise the tab selects
     * the evaluation or its question, becomes the only active tab, and the columns
     * are rendered again.
     */
    method ClickTab(i: nat)
      requires Valid() && i < tabs.Length
      modifies this`currentView, this`selectedMcq, tabs, columns
      ensures Valid()
      ensures old(tabs[i].locked) ==>
        && currentView == old(currentView) && selectedMcq == old(selectedMcq)
        && tabs[..] == old(tabs[..]) && columns[..] == old(columns[..])
      ensures !old(tabs[i].locked) ==>
        && (old(tabs[i].question) == "eval" ==> currentView == EvalView && selectedMcq == old(selectedMcq))
        && (old(tabs[i].question) != "eval" ==> currentView == McqView && IntToString(selectedMcq) == old(tabs[i].question))
        && (forall j :: 0 <= j < tabs.Length ==> tabs[j] == old(tabs[j]).(active := j == i))
        && columns[..] == Rendered(old(columns[..]), currentCaseData, currentView, selectedMcq)
    {
      if tabs[i].locked {
        return;
      }
      var question := tabs[i].question;
      if question == "eval" {
        currentView := EvalView;
      } else {
        currentView := McqView;
        selectedMcq := QuestionNumber(question);
      }
      var j := 0;
      while j < tabs.Length
        modifies tabs
        invariant 0 <= j <= tabs.Length
        invariant forall m :: 0 <= m < j ==> tabs[m] == old(tabs[m]).(active := false)
        invariant forall m :: j <= m < tabs.Length ==> tabs[m] == old(tabs[m])
      {
        tabs[j] := tabs[j].(active := false);
        j := j + 1;
      }
      tabs[i] := tabs[i].(active := true);
      RenderModelComparison();
    }

    /** `renderModelComparison`: every column gets the content for its model. */
    method RenderModelComparison()
      modifies columns
      ensures columns[..] == Rendered(old(columns[..]), currentCaseData, currentView, selectedMcq)
    {
      var j := 0;
      while j < columns.Length
        modifies columns
        invariant 0 <= j <= columns.Length
        invariant forall m :: 0 <= m < j ==>
          columns[m] == Column(old(columns[m]).modelId, ColumnContent(currentCaseData, currentView, selectedMcq, old(columns[m]).modelId))
        invariant forall m :: j <= m < columns.Length ==> columns[m] == old(columns[m])
      {
        var modelId := columns[j].modelId;
        columns[j] := Column(modelId, ColumnContent(currentCaseData, currentView, selectedMcq, modelId));
        j := j + 1;
      }
    }
  }

  /** The loop of `caseIndex.filter(...)`: the entries that pass, in index order. */
  method FilterIndex(index: seq<CaseEntry>, subspecialty: string, searchTerm: string) returns (kept: seq<CaseEntry>)
    ensures kept == Filter(index, subspecialty, searchTerm)
  {
    kept := [];
    var i := 0;
    while i < |index|
      invariant 0 <= i <= |index|
      invariant kept == Filter(index[..i], subspecialty, searchTerm)
    {
      FilterAppend(index[..i], index[i], subspecialty, searchTerm);
      assert index[..i + 1] == index[..i] + [index[i]];
      if Keeps(subspecialty, searchTerm, index[i]) {
        kept := kept + [index[i]];
      }
      i := i + 1;
    }
    assert index[..i] == index;
  }

  /**
   * Once a restricted case has loaded, clicking any tab leaves the selection as it
   * was and every column empty.
   */
  method RestrictedCaseIgnoresTabs(e: ExplorerState, d: CaseDetail, i: nat)
    requires e.Valid() && d.accessRestricted && i < e.tabs.Length
    modifies e, e.tabs, e.columns
    ensures e.currentView == old(e.currentView) && e.selectedMcq == old(e.selectedMcq)
    ensures forall j :: 0 <= j < e.columns.Length ==> e.columns[j].content == ""
  {
    e.CompleteCaseDetail(Some(d));
    e.ClickTab(i);
  }

  /** Filtering returns to the grid, so the next render clears every column. */
  method FilterClearsColumns(e: ExplorerState, subspecialty: string, searchInput: string)
    requires e.Valid()
    modifies e, e.columns
    ensures e.gridVisible && e.currentCaseData == None
    ensures forall j :: 0 <= j < e.columns.Length ==> e.columns[j].content == ""
  {
    e.FilterAndRender(subspecialty, searchInput);
    e.RenderModelComparison();
  }
}
