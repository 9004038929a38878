/**
 * The account form (tui/src/component/form/mod.rs): a student-id field, a
 * masked password field, the carrier chooser and a submit button.  Exactly one
 * field has the focus; Tab moves it, Enter or the button submits the account,
 * Esc goes back to the menu, and other keys go to the focused field.
 */
module FormWidget {
  import opened Utf8
  import opened UiData
  import opened InputWidget
  import opened CheckboxWidget

  /** The focused field (`SelectedInput`); `default()` is Id. */
  datatype Focus = Id | Pwd

  function Flip(f: Focus): (g: Focus)
    ensures g != f
  {
    match f
    case Id => Pwd
    case Pwd => Id
  }

  /** The field names `init` appends: 学号 (student number) and 密码 (password), as UTF-8. */
  const IdName: seq<byte> := EncodeString("学号")
  const PasswordName: seq<byte> := EncodeString("密码")

  class AccountForm {
    const idInput: Input
    const pwInput: Input
    const group: Group
    const tx: Channel
    var pong: bool
    var selected: Focus
    var area: Rect
    var buttonArea: Rect

    /** Two different fields with different ids, a valid chooser, and one channel for all. */
    ghost predicate Valid() {
      idInput != pwInput && idInput.id != pwInput.id && group.Valid()
      && idInput.tx == tx && pwInput.tx == tx && group.tx == tx
    }

    function Focused(): Input
      reads this
    {
      match selected
      case Id => idInput
      case Pwd => pwInput
    }

    /** The field named by `selected` is the one selected field. */
    ghost predicate FocusConsistent()
      reads this, idInput, pwInput
    {
      idInput.selected == (selected == Id) && pwInput.selected == (selected == Pwd)
    }

    /** The account the form submits: both fields' contents and the chosen carrier. */
    function Account(): (u: UserInfo)
      reads idInput, pwInput, group
      ensures u.id == idInput.content && u.password == pwInput.content && u.suffix == group.selected
    {
      UserInfo(idInput.content, pwInput.content, group.selected)
    }

    /**
     * `AccountForm::default()` with the action sender registered: the fields
     * draw ids from the input counter and the boxes from the checkbox counter.
     */
    constructor (inputIds: IdCounter, boxIds: IdCounter, tx: Channel, initial: Suffix)
      requires inputIds != boxIds
      modifies inputIds, boxIds
      ensures Valid() && this.tx == tx && !pong && selected == Id && area == NoArea && buttonArea == NoArea
      ensures fresh(idInput) && fresh(pwInput) && fresh(group)
      ensures idInput.name == [] && idInput.content == [] && !idInput.selected && !idInput.password
      ensures pwInput.name == [] && pwInput.content == [] && !pwInput.selected && !pwInput.password
      ensures group.selected == initial
      ensures forall s :: group.BoxOf(s).caption == [] && !group.BoxOf(s).checked
    {
      var first := new Input(inputIds, tx, []);
      var second := new Input(inputIds, tx, []);
      ConsecutiveIdsDistinct(first.id, 0, 1);
      var boxes := new Group(boxIds, tx, initial);
      idInput := first;
      pwInput := second;
      group := boxes;
      this.tx := tx;
      pong := false;
      selected := Id;
      area := NoArea;
      buttonArea := NoArea;
    }

    /**
     * `init`: name the fields, label the boxes and tick the chosen carrier,
     * toggle the id field's selection and the password field's masking.  On a
     * fresh form this leaves the id field focused and the password masked.
     */
    method Init()
      requires Valid()
      modifies idInput`name, pwInput`name, idInput`selected, pwInput`password
      modifies group.mobile, group.unicom, group.telecom, group.local
      ensures idInput.name == old(idInput.name) + IdName && pwInput.name == old(pwInput.name) + PasswordName
      ensures idInput.selected == !old(idInput.selected) && pwInput.password == !old(pwInput.password)
      ensures forall s :: group.BoxOf(s).caption == old(group.BoxOf(s).caption) + Label(s)
      ensures forall s :: group.BoxOf(s).area == old(group.BoxOf(s).area)
      ensures group.OneChecked()
      ensures old(!idInput.selected && !pwInput.selected && !pwInput.password && selected == Id) ==>
        FocusConsistent() && pwInput.password
    {
      idInput.name := idInput.name + IdName;
      pwInput.name := pwInput.name + PasswordName;
      group.Init();
      idInput.ToggleSelect();
      pwInput.TogglePassword();
    }

    /**
     * `handle_key`.  A press of Enter submits the account and a press of Esc
     * asks for the menu, and neither reaches a field.  A press of Tab moves the
     * focus, flips both fields' selection and asks for a redraw, and is then
     * passed on like every other key to the field that has the focus now.
     */
    method HandleKey(key: KeyEvent)
      requires Valid()
      requires KeyDefined(Focused().content, key)
      modifies this`selected, idInput`content, pwInput`content, idInput`selected, pwInput`selected, tx
      ensures key.kind == Press && key.code == Enter ==>
        tx.sent == old(tx.sent) + [SetAccount(Account())]
        && selected == old(selected) && unchanged(idInput, pwInput)
      ensures key.kind == Press && key.code == Esc ==>
        tx.sent == old(tx.sent) + [JumpTo(AppPage.Menu)]
        && selected == old(selected) && unchanged(idInput, pwInput)
      ensures !(key.kind == Press && key.code in {Enter, Esc}) ==>
        var tab, f := key.kind == Press && key.code == Tab, Focused();
        && selected == (if tab then Flip(old(selected)) else old(selected))
        && idInput.selected == (old(idInput.selected) != tab)
        && pwInput.selected == (old(pwInput.selected) != tab)
        && f.content == AfterKey(old(f.content), key)
        && (selected == Id ==> pwInput.content == old(pwInput.content))
        && (selected == Pwd ==> idInput.content == old(idInput.content))
        && tx.sent == old(tx.sent) + (if tab then [Draw] else [])
                                   + (if Redraws(old(f.content), key) then [Draw] else [])
      ensures old(FocusConsistent()) ==> FocusConsistent()
    {
      if key.kind == Press {
        match key.code
        case Enter =>
          tx.Send(SetAccount(UserInfo(idInput.content, pwInput.content, group.selected)));
          return;
        case Tab =>
          match selected {
            case Id => selected := Pwd;
            case Pwd => selected := Id;
          }
          idInput.ToggleSelect();
          pwInput.ToggleSelect();
          tx.Send(Draw);
        case Esc =>
          tx.Send(JumpTo(AppPage.Menu));
          return;
        case _ =>
      }
      match selected {
        case Id => idInput.HandleKey(key);
        case Pwd => pwInput.HandleKey(key);
      }
    }

    /**
     * `handle_signal`.  The first `DaemonPong` asks for the stored account and
     * later ones do nothing; a received account fills both fields, ticks its
     * carrier and asks for a redraw; `InputSelected(i)` selects the field with
     * id `i` (if either has it) and asks for a redraw; `CheckboxSelected` goes
     * to the chooser; every other signal does nothing.
     */
    method HandleSignal(signal: Signal)
      requires Valid()
      modifies this`pong, this`selected, idInput`content, pwInput`content, idInput`selected, pwInput`selected
      modifies group`selected, group.mobile`checked, group.unicom`checked, group.telecom`checked, group.local`checked
      modifies tx
      ensures signal.DaemonPong? ==>
        && pong && tx.sent == old(tx.sent) + (if old(pong) then [] else [GetAccount])
        && selected == old(selected) && unchanged(idInput, pwInput, group)
        && forall s :: group.BoxOf(s).checked == old(group.BoxOf(s).checked)
      ensures signal.UserInfoReceived? ==>
        && idInput.content == signal.user.id && pwInput.content == signal.user.password
        && group.selected == signal.user.suffix && group.OneChecked()
        && tx.sent == old(tx.sent) + [Draw]
        && pong == old(pong) && selected == old(selected)
        && idInput.selected == old(idInput.selected) && pwInput.selected == old(pwInput.selected)
      ensures signal.InputSelected? ==>
        && idInput.selected == (signal.inputId == idInput.id)
        && pwInput.selected == (signal.inputId == pwInput.id)
        && selected == (if signal.inputId == idInput.id then Id
                        else if signal.inputId == pwInput.id then Pwd
                        else old(selected))
        && tx.sent == old(tx.sent) + [Draw]
        && pong == old(pong) && unchanged(group)
        && idInput.content == old(idInput.content) && pwInput.content == old(pwInput.content)
        && forall s :: group.BoxOf(s).checked == old(group.BoxOf(s).checked)
      ensures signal.InputSelected? && signal.inputId in {idInput.id, pwInput.id} ==> FocusConsistent()
      ensures signal.CheckboxSelected? ==>
        && group.selected == (match group.SuffixOf(signal.checkboxId) case Some(s) => s case None => old(group.selected))
        && (forall s :: group.BoxOf(s).checked <==> group.BoxOf(s).id == signal.checkboxId)
        && tx.sent == old(tx.sent) + [Draw]
        && pong == old(pong) && selected == old(selected) && unchanged(idInput, pwInput)
      ensures signal.ChangePage? || signal.Exit? || signal.Other? ==>
        && pong == old(pong) && selected == old(selected) && tx.sent == old(tx.sent)
        && unchanged(idInput, pwInput, group)
        && forall s :: group.BoxOf(s).checked == old(group.BoxOf(s).checked)
    {
      match signal
      case DaemonPong =>
        if !pong {
          tx.Send(GetAccount);
          pong := true;
        }
      case UserInfoReceived(user) =>
        idInput.content := user.id;
        pwInput.content := user.password;
        group.Select(user.suffix);
        tx.Send(Draw);
      case InputSelected(i) =>
        idInput.HandleSignal(InputSelected(i));
        pwInput.HandleSignal(signal);
        if i == idInput.id {
          selected := Id;
        } else if i == pwInput.id {
          selected := Pwd;
        }
        tx.Send(Draw);
      case CheckboxSelected(_) =>
        group.HandleSignal(signal);
      case _ =>
    }

    /**
     * What a mouse event makes the form send: the first of the id field, the
     * password field, the chooser and the button whose area holds the mouse
     * handles it, and only a left click sends anything.
     */
    function ClickActions(mouse: MouseEvent): (r: seq<Action>)
      reads this, idInput, pwInput, group, group.mobile, group.unicom, group.telecom, group.local
      ensures |r| <= 1
      ensures mouse.kind != LeftDown ==> r == []
      ensures idInput.area.Contains(mouse.column, mouse.row) && mouse.kind == LeftDown ==> r == [SelectInput(idInput.id)]
      ensures r != [] && r[0].SetAccount? ==> r[0].user == Account() && buttonArea.Contains(mouse.column, mouse.row)
    {
      var column, row := mouse.column, mouse.row;
      if mouse.kind != LeftDown then []
      else if idInput.area.Contains(column, row) then [SelectInput(idInput.id)]
      else if pwInput.area.Contains(column, row) then [SelectInput(pwInput.id)]
      else if group.area.Contains(column, row) then
        match group.HitBox(column, row)
        case Some(box) => [SelectCheckbox(box.id)]
        case None => []
      else if buttonArea.Contains(column, row) then [SetAccount(Account())]
      else []
    }

    /** `handle_mouse`: dispatch the event by area, as ClickActions describes. */
    method HandleMouse(mouse: MouseEvent)
      requires Valid()
      modifies tx
      ensures tx.sent == old(tx.sent) + ClickActions(mouse)
    {
      if idInput.area.Contains(mouse.column, mouse.row) {
        idInput.HandleMouse(mouse);
      } else if pwInput.area.Contains(mouse.column, mouse.row) {
        pwInput.HandleMouse(mouse);
      } else if group.area.Contains(mouse.column, mouse.row) {
        group.HandleMouse(mouse);
      } else if buttonArea.Contains(mouse.column, mouse.row) {
        if mouse.kind == LeftDown {
          tx.Send(SetAccount(UserInfo(idInput.content, pwInput.content, group.selected)));
        }
      }
    }
  }
}
