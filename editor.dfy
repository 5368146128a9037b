/**
 * The editor component as a stateful object: the session (files and active
 * id), the settings, and the one long-lived editing widget. Every handler
 * changes the state in place and is proved to perform the transition that
 * module Session defines on values.
 */
module Editor {
  import opened Wrappers
  import opened Languages
  import opened Settings
  import opened Search
  import opened Session

  /** The widget options the editor sets, under the names `setOption` uses. */
  datatype WidgetOptions = WidgetOptions(
    mode: string,
    theme: string,
    lineNumbers: bool,
    lineWrapping: bool,
    tabSize: int,
    indentWithTabs: bool)

  /** One `setOption(name, value)` call. */
  datatype OptionSetting =
    | ModeOption(mode: string)
    | ThemeOption(theme: string)
    | LineNumbersOption(lineNumbers: bool)
    | LineWrappingOption(lineWrapping: bool)
    | TabSizeOption(tabSize: int)
    | IndentWithTabsOption(indentWithTabs: bool)

  function WithOption(o: WidgetOptions, setting: OptionSetting): WidgetOptions
  {
    match setting
    case ModeOption(m) => o.(mode := m)
    case ThemeOption(t) => o.(theme := t)
    case LineNumbersOption(b) => o.(lineNumbers := b)
    case LineWrappingOption(b) => o.(lineWrapping := b)
    case TabSizeOption(n) => o.(tabSize := n)
    case IndentWithTabsOption(b) => o.(indentWithTabs := b)
  }

  /**
   * The options the widget should carry for a file of `language` under
   * `settings`: the language's mode, "material" exactly for the dark
   * preference, and tabs for indentation exactly when spaces are not wanted.
   */
  function OptionsFor(language: Language, settings: EditorSettings): (o: WidgetOptions)
    ensures o.mode == ModeByLanguage(language)
    ensures o.theme == "material" <==> settings.theme == Dark
    ensures o.theme == "material" || o.theme == "eclipse"
    ensures o.indentWithTabs <==> !settings.convertTabsToSpaces
    ensures o.lineNumbers == settings.lineNumbers && o.lineWrapping == settings.lineWrapping
    ensures o.tabSize == settings.tabSize
  {
    WidgetOptions(ModeByLanguage(language), WidgetTheme(settings.theme), settings.lineNumbers,
                  settings.lineWrapping, settings.tabSize, !settings.convertTabsToSpaces)
  }

  /**
   * The editing widget, seen as a text buffer with a selection and options.
   * `valueWrites` counts the `setValue` calls it has received, and
   * `listenerTarget` is the active id its change listener captured when the
   * widget was built.
   */
  class Widget {
    var value: string
    var options: WidgetOptions
    var selection: Selection
    var valueWrites: nat
    const listenerTarget: Option<Id>

    constructor (value: string, options: WidgetOptions, listenerTarget: Option<Id>)
      ensures this.value == value && this.options == options
      ensures this.listenerTarget == listenerTarget
      ensures selection == Selection(0, 0) && valueWrites == 0
    {
      this.value := value;
      this.options := options;
      this.listenerTarget := listenerTarget;
      selection := Selection(0, 0);
      valueWrites := 0;
    }

    /** `setValue`: replace the buffer; the cursor goes back to the start. */
    method SetValue(text: string)
      modifies this`value, this`selection, this`valueWrites
      ensures value == text && selection == Selection(0, 0)
      ensures valueWrites == old(valueWrites) + 1
    {
      value := text;
      selection := Selection(0, 0);
      valueWrites := valueWrites + 1;
    }

    /** A keystroke: the user changes the buffer directly. */
    method Type(text: string)
      modifies this`value
      ensures value == text
    {
      value := text;
    }

    method SetOption(setting: OptionSetting)
      modifies this`options
      ensures options == WithOption(old(options), setting)
    {
      options := WithOption(options, setting);
    }

    method SetSelection(s: Selection)
      modifies this`selection
      ensures selection == s
    {
      selection := s;
    }
  }

  class CodeEditor {
    var files: seq<File>
    var activeId: Option<Id>
    var settings: EditorSettings
    var widget: Widget?

    /** The session part of the state, as a value. */
    function Snapshot(): State
      reads this
    {
      State(files, activeId)
    }

    predicate Valid()
      reads this
    {
      Session.Valid(Snapshot())
    }

    /** The active file, found by id as the editor's `find` does. */
    function Active(): Option<File>
      reads this
    {
      Lookup(files, activeId)
    }

    /** The widget shows the active file with the options the settings call for. */
    predicate InSync()
      reads this, widget
    {
      widget != null && Active().Some? && widget.value == Active().value.content
      && widget.options == OptionsFor(Active().value.language, settings)
    }

    constructor ()
      ensures files == [] && activeId == None && settings == Defaults && widget == null
      ensures Valid()
    {
      files := [];
      activeId := None;
      settings := Defaults;
      widget := null;
    }

    /**
     * The mount effect: an empty session gets a blank file, and the stored
     * settings replace the defaults when the entry parses.
     */
    method Mount(freshId: Id, entry: StoredEntry)
      requires Valid() && !HasId(files, freshId)
      modifies this`files, this`activeId, this`settings
      ensures Valid()
      ensures Snapshot() == if old(files) == [] then Create(old(Snapshot()), freshId) else old(Snapshot())
      ensures settings == Load(old(settings), entry)
    {
      if |files| == 0 {
        CreateNewFile(freshId);
      }
      settings := Load(settings, entry);
    }

    /** `createNewFile`. */
    method CreateNewFile(id: Id)
      requires Valid() && !HasId(files, id)
      modifies this`files, this`activeId
      ensures Valid()
      ensures Snapshot() == Create(old(Snapshot()), id)
    {
      var newFile := Untitled(id);
      files := files + [newFile];
      activeId := Some(newFile.id);
      assert HasId(files, id) by { assert files[|files| - 1].id == id; }
    }

    /** The import branch of `openFile`, given the chosen file's name and text. */
    method OpenFile(name: string, content: string, freshId: Id)
      requires Valid() && !HasId(files, freshId)
      modifies this`files, this`activeId
      ensures Valid()
      ensures Snapshot() == Import(old(Snapshot()), name, content, freshId)
    {
      var language := LanguageByFileName(name);
      StoreFile(name, content, language, freshId);
    }

    /** The rest of the import: overwrite the open file of that name, or append a new one. */
    method StoreFile(name: string, content: string, language: Language, freshId: Id)
      requires Valid() && !HasId(files, freshId)
      modifies this`files, this`activeId
      ensures Valid()
      ensures Snapshot() == Store(old(Snapshot()), name, content, language, freshId)
    {
      StoreKeepsValid(Snapshot(), name, content, language, freshId);
      var existing := IndexOfName(files, name);
      if existing >= 0 {
        var updated := files[existing].(content := content, language := language);
        files := ReplaceById(files, updated);
        activeId := Some(updated.id);
      } else {
        var newFile := File(freshId, name, content, language);
        files := files + [newFile];
        activeId := Some(newFile.id);
      }
    }

    /** `closeFile`. */
    method CloseFile(id: Id, freshId: Id)
      requires Valid() && !HasId(files, freshId)
      modifies this`files, this`activeId
      ensures Valid()
      ensures old(files) != [] ==> files != [] && activeId.Some? && !HasId(files, id)
      ensures Snapshot() == Close(old(Snapshot()), id, freshId)
    {
      ghost var before := Snapshot();
      RemoveIdKeepsUnique(files, id);
      if files != [] {
        CloseKeepsSessionUsable(before, id, freshId);
      }
      var remaining := RemoveId(files, id);
      files := remaining;
      if Some(id) == activeId {
        if |remaining| > 0 {
          activeId := Some(remaining[0].id);
        } else {
          activeId := None;
          CreateNewFile(freshId);
        }
      }
    }

    /** Clicking a file's tab. */
    method SelectFile(id: Id)
      requires Valid() && HasId(files, id)
      modifies this`activeId
      ensures Valid()
      ensures Snapshot() == Select(old(Snapshot()), id)
    {
      activeId := Some(id);
    }

    /** The Ctrl+Tab branch of the key handler. */
    method NextFile()
      requires Valid()
      modifies this`activeId
      ensures Valid()
      ensures Snapshot() == Next(old(Snapshot()))
    {
      if |files| <= 1 {
        return;
      }
      NextStep(Snapshot());
      var currentIndex := if activeId.Some? then IndexOfId(files, activeId.value) else -1;
      var nextIndex := (currentIndex + 1) % |files|;
      activeId := Some(files[nextIndex].id);
    }

    /**
     * A keystroke followed by the change listener, with the listener reading
     * the active id at the time of the edit.
     */
    method Edit(text: string)
      requires Valid() && widget != null
      modifies this`files, widget`value
      ensures Valid()
      ensures widget.value == text
      ensures Snapshot() == ContentChanged(old(Snapshot()), activeId, text)
      ensures activeId.Some? ==> Active().Some? && Active().value.content == text
    {
      widget.Type(text);
      ContentChangedKeepsValid(Snapshot(), activeId, text);
      if activeId.Some? {
        ListenerOnActiveFileSyncs(Snapshot(), text);
      }
      if activeId.None? {
        return;
      }
      var content := widget.value;
      files := UpdateContent(files, activeId.value, content);
    }

    /**
     * A keystroke followed by the change listener as registered in the
     * source: the listener writes to the id it captured when the widget was
     * built, whichever file is active now.
     */
    method EditAsWritten(text: string)
      requires Valid() && widget != null
      modifies this`files, widget`value
      ensures Valid()
      ensures widget.value == text
      ensures Snapshot() == ContentChanged(old(Snapshot()), widget.listenerTarget, text)
    {
      widget.Type(text);
      ContentChangedKeepsValid(Snapshot(), widget.listenerTarget, text);
      if widget.listenerTarget.None? {
        return;
      }
      var content := widget.value;
      files := UpdateContent(files, widget.listenerTarget.value, content);
    }

    /**
     * The reconciliation effect. With no resolvable active file it does
     * nothing. Otherwise it builds the widget on first use, or else rewrites
     * the buffer only when it differs from the active content; then it pushes
     * the mode and the options. Afterwards the widget shows the active file.
     */
    method Reconcile()
      modifies this`widget, widget
      ensures files == old(files) && activeId == old(activeId) && settings == old(settings)
      ensures Active().None? ==> widget == old(widget) && (widget != null ==> unchanged(widget))
      ensures Active().Some? ==> InSync()
      ensures Active().Some? && old(widget) == null ==>
        fresh(widget) && widget.valueWrites == 0 && widget.listenerTarget == activeId
      ensures Active().Some? && old(widget) != null ==>
        && widget == old(widget)
        && widget.valueWrites == old(widget.valueWrites) + (if old(widget.value) == Active().value.content then 0 else 1)
        && (old(widget.value) == Active().value.content ==> widget.selection == old(widget.selection))
    {
      var activeFile := Lookup(files, activeId);
      if activeFile.None? {
        return;
      }
      var f := activeFile.value;
      var target := OptionsFor(f.language, settings);
      if widget == null {
        widget := new Widget(f.content, target, activeId);
      } else {
        var currentContent := widget.value;
        if currentContent != f.content {
          widget.SetValue(f.content);
        }
        widget.SetOption(ModeOption(ModeByLanguage(f.language)));
      }
      widget.SetOption(ThemeOption(WidgetTheme(settings.theme)));
      widget.SetOption(LineNumbersOption(settings.lineNumbers));
      widget.SetOption(LineWrappingOption(settings.lineWrapping));
      widget.SetOption(TabSizeOption(settings.tabSize));
      widget.SetOption(IndentWithTabsOption(!settings.convertTabsToSpaces));
    }

    /**
     * `handleSearch`, with the cursor starting where the current selection
     * ends: look from there, then once from offset 0; select a hit.
     */
    method HandleSearch(query: string) returns (outcome: Outcome)
      modifies widget
      ensures widget == null ==> outcome == Skipped
      ensures widget != null ==> widget.value == old(widget.value) && widget.options == old(widget.options)
      ensures widget != null ==> widget.valueWrites == old(widget.valueWrites)
      ensures widget != null ==>
        var r := Find(widget.value, query, old(widget.selection).to, old(widget.selection));
        outcome == r.outcome && widget.selection == r.selection
    {
      if widget == null || query == [] {
        return Skipped;
      }
      outcome := SearchFrom(query, widget.selection.to);
    }

    /** `handleSearch` as written: the cursor always starts at offset 0. */
    method HandleSearchAsWritten(query: string) returns (outcome: Outcome)
      modifies widget
      ensures widget == null ==> outcome == Skipped
      ensures widget != null ==> widget.value == old(widget.value) && widget.options == old(widget.options)
      ensures widget != null ==> widget.valueWrites == old(widget.valueWrites)
      ensures widget != null ==>
        var r := Find(widget.value, query, 0, old(widget.selection));
        outcome == r.outcome && widget.selection == r.selection
    {
      if widget == null || query == [] {
        return Skipped;
      }
      outcome := SearchFrom(query, 0);
    }

    /** The two `findNext` attempts of the search cursor. */
    method SearchFrom(query: string, start: nat) returns (outcome: Outcome)
      requires widget != null && query != []
      modifies widget`selection
      ensures var r := Find(widget.value, query, start, old(widget.selection));
        outcome == r.outcome && widget.selection == r.selection
    {
      var hit := FindFrom(widget.value, query, start);
      if hit.Some? {
        widget.SetSelection(Covering(query, hit.value));
        return Found;
      }
      hit := FindFrom(widget.value, query, 0);
      if hit.Some? {
        widget.SetSelection(Covering(query, hit.value));
        return WrappedFound;
      }
      return NotFound;
    }
  }

  /** A second reconciliation with nothing changed in between writes no content. */
  method ReconcileTwice(e: CodeEditor)
    modifies e, e.widget
    ensures e.Active().Some? ==>
      && e.InSync()
      && e.widget.valueWrites == if old(e.widget) == null then 0
         else old(e.widget.valueWrites) + (if old(e.widget.value) == e.Active().value.content then 0 else 1)
  {
    e.Reconcile();
    if e.Active().Some? {
      var writes := e.widget.valueWrites;
      e.Reconcile();
      assert e.widget.valueWrites == writes;
    }
  }

  /**
   * Typing and then reconciling does not rewrite the buffer: the listener has
   * already stored the keystroke in the active file.
   */
  method TypeThenReconcile(e: CodeEditor, text: string)
    requires e.Valid() && e.widget != null && e.activeId.Some?
    modifies e, e.widget
    ensures e.widget == old(e.widget) && e.widget.value == text
    ensures e.widget.valueWrites == old(e.widget.valueWrites)
  {
    e.Edit(text);
    e.Reconcile();
  }

  /**
   * The listener as registered, after a switch: the keystroke is stored in
   * the file the listener captured, the active file keeps its old text, and
   * the next reconciliation writes that old text back into the buffer, so
   * the keystroke vanishes from the screen.
   */
  method StaleEditReverted(e: CodeEditor, text: string)
    requires e.Valid() && e.widget != null && e.Active().Some?
    requires e.widget.listenerTarget != e.activeId && text != e.Active().value.content
    modifies e, e.widget
    ensures e.widget == old(e.widget) && e.activeId == old(e.activeId)
    ensures e.Active() == old(e.Active())
    ensures e.widget.value == old(e.Active().value.content) != text
    ensures e.widget.valueWrites == old(e.widget.valueWrites) + 1
  {
    ListenerElsewhereKeepsActive(e.Snapshot(), e.widget.listenerTarget, text);
    e.EditAsWritten(text);
    e.Reconcile();
  }

  /**
   * From start-up: the widget is built on the untitled file, so its listener
   * keeps that id. After importing a.js and typing, the text lands in the
   * untitled file, a.js keeps its old text, and the next reconciliation
   * shows that old text again.
   */
  method StartUpEditGoesToUntitled(u: Id, a: Id) returns (untitled: string, imported: string, shown: string)
    requires u != a
    ensures untitled == "typed" && imported == "A" && shown == "A"
  {
    var e := new CodeEditor();
    e.Mount(u, Absent);
    e.Reconcile();
    assert e.widget.listenerTarget == Some(u);
    assert IndexOfName(e.files, "a.js") == -1;
    e.OpenFile("a.js", "A", a);
    assert e.files[1].id == a;
    e.Reconcile();
    assert e.widget.value == "A";
    e.EditAsWritten("typed");
    e.Reconcile();
    untitled := e.files[0].content;
    imported := e.files[1].content;
    shown := e.widget.value;
  }

  /**
   * Switching from one file to another and back keeps the widget instance
   * and the first file's content.
   */
  method SwitchAndBack(e: CodeEditor, other: Id)
    requires e.Valid() && e.widget != null && e.activeId.Some? && HasId(e.files, other)
    modifies e, e.widget
    ensures e.widget == old(e.widget) && e.files == old(e.files) && e.activeId == old(e.activeId)
    ensures e.InSync()
  {
    var first := e.activeId.value;
    e.SelectFile(other);
    e.Reconcile();
    e.SelectFile(first);
    e.Reconcile();
  }
}
