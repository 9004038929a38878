/**
 * The text field of the account form (tui/src/component/form/input.rs): a
 * name, the typed content as UTF-8 bytes, and the `selected` and `password`
 * flags.  Keys edit the content, a left click asks to select the field, and
 * the event loop's `InputSelected` signal decides which field is selected.
 */
module InputWidget {
  import opened Utf8
  import opened UiData

  /** Only presses and auto-repeats edit the content; releases are ignored. */
  predicate Edits(kind: KeyKind) {
    kind == Press || kind == Repeat
  }

  /**
   * A key would not panic: Backspace on non-empty content truncates one byte,
   * and `String::truncate` panics unless that cut falls on a character boundary.
   */
  predicate KeyDefined(content: seq<byte>, key: KeyEvent) {
    Edits(key.kind) && key.code == Backspace && content != [] ==> IsCharBoundary(content, |content| - 1)
  }

  /** The content after a key: Backspace drops the last byte, a character appends its UTF-8 encoding. */
  function AfterKey(content: seq<byte>, key: KeyEvent): (r: seq<byte>)
    ensures !Edits(key.kind) ==> r == content
    ensures key.code.Char? && Edits(key.kind) ==> r == content + EncodeChar(key.code.c)
    ensures key.code == Backspace && Edits(key.kind) && content != [] ==> r + [content[|content| - 1]] == content
    ensures content == [] && !key.code.Char? ==> r == []
    ensures !key.code.Char? && key.code != Backspace ==> r == content
  {
    if !Edits(key.kind) then content
    else match key.code
      case Backspace => if content == [] then content else content[..|content| - 1]
      case Char(c) => content + EncodeChar(c)
      case _ => content
  }

  /** A key asks for a redraw exactly when it changed the content. */
  predicate Redraws(content: seq<byte>, key: KeyEvent) {
    Edits(key.kind) && (key.code.Char? || (key.code == Backspace && content != []))
  }

  /** Whether a key asks for a redraw is whether it changes the content. */
  lemma RedrawsIffChanged(content: seq<byte>, key: KeyEvent)
    ensures Redraws(content, key) <==> AfterKey(content, key) != content
  {
    if Redraws(content, key) && key.code.Char? {
      assert |AfterKey(content, key)| > |content|;
    }
  }

  /** Typing an ASCII character and erasing it leaves the content as it was, and the erase is safe. */
  lemma TypeThenErase(content: seq<byte>, c: char, k1: KeyKind, k2: KeyKind)
    requires IsAscii(c) && Edits(k1) && Edits(k2)
    ensures var typed := AfterKey(content, KeyEvent(Char(c), k1));
      KeyDefined(typed, KeyEvent(Backspace, k2)) && AfterKey(typed, KeyEvent(Backspace, k2)) == content
  {
    var typed := AfterKey(content, KeyEvent(Char(c), k1));
    assert typed == content + [c as int];
    assert typed[..|typed| - 1] == content;
  }

  /** After a character that takes several bytes, Backspace would cut inside it: the source panics. */
  lemma EraseWideCharPanics(content: seq<byte>, c: char, k1: KeyKind, k2: KeyKind)
    requires !IsAscii(c) && Edits(k1) && Edits(k2)
    ensures !KeyDefined(AfterKey(content, KeyEvent(Char(c), k1)), KeyEvent(Backspace, k2))
  {
    var e := EncodeChar(c);
    var typed := content + e;
    assert typed[|typed| - 1] == e[|e| - 1];
  }

  /** What a key means for the text typed so far: Backspace removes its last character, a character is appended. */
  function EditText(text: string, key: KeyEvent): (r: string)
    ensures key.code.Char? && Edits(key.kind) ==> r == text + [key.code.c]
    ensures key.code == Backspace && Edits(key.kind) && text != [] ==> r == text[..|text| - 1]
    ensures !Edits(key.kind) || (key.code != Backspace && !key.code.Char?) || (key.code == Backspace && text == []) ==> r == text
  {
    if !Edits(key.kind) then text
    else match key.code
      case Backspace => if text == [] then text else text[..|text| - 1]
      case Char(c) => text + [c]
      case _ => text
  }

  /**
   * The evident intent of `handle_key`: as AfterKey, except that Backspace
   * removes the whole last character (what `String::pop` does) instead of
   * its last byte.  It never panics, and agrees with the source wherever the
   * source does not panic.
   */
  function AfterKeyIntended(content: seq<byte>, key: KeyEvent): (r: seq<byte>)
    ensures KeyDefined(content, key) ==> r == AfterKey(content, key)
    ensures key.code == Backspace && Edits(key.kind) && content != [] ==>
      |r| < |content| && r == content[..|r|] && IsCharBoundary(content, |r|)
      && forall j :: |r| < j < |content| ==> IsContinuation(content[j])
  {
    if Edits(key.kind) && key.code == Backspace && content != [] then content[..LastCharStart(content)]
    else AfterKey(content, key)
  }

  /** On the encoding of any text, the intended edit is the encoding of the edited text. */
  lemma AfterKeyIntendedEdits(text: string, key: KeyEvent)
    ensures AfterKeyIntended(EncodeString(text), key) == EncodeString(EditText(text, key))
  {
    if Edits(key.kind) {
      match key.code
      case Backspace =>
        if text != [] {
          DropLastChar(text);
        }
      case Char(c) =>
        EncodeAppend(text, [c]);
        assert EncodeString([c]) == EncodeChar(c);
      case _ =>
    }
  }

  /** With the intended Backspace, typing any character and erasing it leaves the content as it was. */
  lemma TypeThenEraseIntended(content: seq<byte>, c: char, k1: KeyKind, k2: KeyKind)
    requires Edits(k1) && Edits(k2)
    ensures AfterKeyIntended(AfterKeyIntended(content, KeyEvent(Char(c), k1)), KeyEvent(Backspace, k2)) == content
  {
    var e := EncodeChar(c);
    assert AfterKeyIntended(content, KeyEvent(Char(c), k1)) == content + e;
    LastCharStartOf(content, e);
    assert (content + e)[..|content|] == content;
  }

  const Star: byte := '*' as int
  const Space: byte := ' ' as int

  function Fill(b: byte, n: nat): (r: seq<byte>)
    ensures |r| == n && forall i :: 0 <= i < n ==> r[i] == b
  {
    if n == 0 then [] else [b] + Fill(b, n - 1)
  }

  /**
   * The 16 bytes the field shows: the content, or one `*` per content byte when
   * masked; padded with spaces when shorter than 16, otherwise the last 16
   * bytes while the field is selected (where typing happens) and the first 16
   * while it is not.
   */
  function Window(content: seq<byte>, password: bool, selected: bool): (r: seq<byte>)
    ensures |r| == 16
    ensures password ==> r == if |content| < 16 then Fill(Star, |content|) + Fill(Space, 16 - |content|) else Fill(Star, 16)
  {
    var shown := if password then Fill(Star, |content|) else content;
    if |shown| < 16 then shown + Fill(Space, 16 - |content|)
    else if selected then shown[|content| - 16..]
    else shown[..16]
  }

  /** Drawing would not panic: an unmasked long content is sliced on a character boundary. */
  predicate WindowDefined(content: seq<byte>, password: bool, selected: bool) {
    password || |content| < 16 || IsCharBoundary(content, if selected then |content| - 16 else 16)
  }

  /** Short unmasked content is shown whole, followed by spaces. */
  lemma ShortContentShownWhole(content: seq<byte>, selected: bool)
    requires |content| < 16
    ensures var r := Window(content, false, selected);
      r[..|content|] == content && forall i :: |content| <= i < 16 ==> r[i] == Space
  {
  }

  /** A selected field with long content shows its end: the content is what scrolled off followed by the window. */
  lemma SelectedShowsEnd(content: seq<byte>)
    requires |content| >= 16
    ensures content == content[..|content| - 16] + Window(content, false, true)
  {
  }

  /** An unselected field with long content shows its start: the content is the window followed by the rest. */
  lemma UnselectedShowsStart(content: seq<byte>)
    requires |content| >= 16
    ensures content == Window(content, false, false) + content[16..]
  {
  }

  /**
   * A masked field shows one star per content byte, up to 16, then spaces, and
   * so reveals nothing but the content's length.
   */
  lemma MaskedShowsOnlyLength(c1: seq<byte>, c2: seq<byte>, selected: bool)
    requires |c1| == |c2|
    ensures Window(c1, true, selected) == Window(c2, true, selected)
    ensures forall i :: 0 <= i < 16 ==> Window(c1, true, selected)[i] in {Star, Space}
    ensures forall i :: 0 <= i < 16 ==> (Window(c1, true, selected)[i] == Star <==> i < |c1|)
  {
  }

  /** The text field. */
  class Input {
    const id: u16
    const tx: Channel
    var name: seq<byte>
    var content: seq<byte>
    var selected: bool
    var password: bool
    var area: Rect

    /** `Input::new(name)` (and `Input::default()`, whose name is empty) with its action sender registered. */
    constructor (counter: IdCounter, tx: Channel, name: seq<byte>)
      modifies counter
      ensures id == old(counter.next) && counter.next == (old(counter.next) + 1) % 0x1_0000
      ensures this.tx == tx && this.name == name && content == []
      ensures !selected && !password && area == NoArea
    {
      var fresh_id := counter.FetchAdd();
      id := fresh_id;
      this.tx := tx;
      this.name := name;
      content := [];
      selected := false;
      password := false;
      area := NoArea;
    }

    /** `handle_key`: edit the content and ask for a redraw when it changed. */
    method HandleKey(key: KeyEvent)
      requires KeyDefined(content, key)
      modifies this`content, tx
      ensures content == AfterKey(old(content), key)
      ensures tx.sent == old(tx.sent) + if Redraws(old(content), key) then [Draw] else []
    {
      if Edits(key.kind) {
        match key.code
        case Backspace =>
          if content != [] {
            content := content[..|content| - 1];
            tx.Send(Draw);
          }
        case Char(c) =>
          content := content + EncodeChar(c);
          tx.Send(Draw);
        case _ =>
      }
    }

    /** `handle_mouse`: a left click asks the event loop to select this field. */
    method HandleMouse(mouse: MouseEvent)
      modifies tx
      ensures tx.sent == old(tx.sent) + if mouse.kind == LeftDown then [SelectInput(id)] else []
    {
      if mouse.kind == LeftDown {
        tx.Send(SelectInput(id));
      }
    }

    /** `handle_signal`: `InputSelected(i)` selects this field exactly when `i` is its id. */
    method HandleSignal(signal: Signal)
      modifies this`selected
      ensures signal.InputSelected? ==> (selected <==> signal.inputId == id)
      ensures !signal.InputSelected? ==> selected == old(selected)
    {
      if signal.InputSelected? {
        selected := signal.inputId == id;
      }
    }

    method ToggleSelect()
      modifies this`selected
      ensures selected == !old(selected)
    {
      selected := !selected;
    }

    method TogglePassword()
      modifies this`password
      ensures password == !old(password)
    {
      password := !password;
    }

    /**
     * `length`: the name's byte length cut to u16, plus a separator column and
     * the 16 columns of the text; the u16 additions must not overflow.
     */
    function Length(): (r: u16)
      reads this
      requires |name| % 0x1_0000 + 17 < 0x1_0000
      ensures r >= 17
      ensures |name| < 0x1_0000 - 17 ==> r == |name| + 17
    {
      |name| % 0x1_0000 + 1 + 16
    }

    /** The text `draw` renders in the field's 16 columns. */
    method VisibleText() returns (text: seq<byte>)
      requires WindowDefined(content, password, selected)
      ensures text == Window(content, password, selected)
    {
      if password {
        text := Fill(Star, |content|);
      } else {
        text := content;
      }
      if |text| < 16 {
        text := text + Fill(Space, 16 - |content|);
      } else if selected {
        text := text[|content| - 16..];
      } else {
        text := text[0..16];
      }
    }
  }
}
