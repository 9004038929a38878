/**
 * The carrier chooser of the account form (tui/src/component/form/checkbox.rs):
 * a group of four checkboxes, one per carrier, of which the one matching the
 * group's `selected` carrier is ticked.  A click on a box asks the event loop
 * to select it; the loop's `CheckboxSelected` signal then moves the tick.
 */
module CheckboxWidget {
  import opened Wrappers
  import opened UiData

  /** One box: its id, its label (`caption`, since `label` is a Dafny keyword), whether it is ticked, and where it was last drawn. */
  class Checkbox {
    const id: u16
    const tx: Channel
    var caption: string
    var checked: bool
    var area: Rect

    /** `Checkbox::default()`, with the action sender registered. */
    constructor (counter: IdCounter, tx: Channel)
      modifies counter
      ensures id == old(counter.next) && counter.next == (old(counter.next) + 1) % 0x1_0000
      ensures this.tx == tx && caption == [] && !checked && area == NoArea
    {
      var fresh_id := counter.FetchAdd();
      id := fresh_id;
      this.tx := tx;
      caption := [];
      checked := false;
      area := NoArea;
    }

    /** `handle_signal`: `CheckboxSelected(i)` ticks this box exactly when `i` is its id. */
    method HandleSignal(signal: Signal)
      modifies this`checked
      ensures signal.CheckboxSelected? ==> (checked <==> signal.checkboxId == id)
      ensures !signal.CheckboxSelected? ==> checked == old(checked)
    {
      if signal.CheckboxSelected? {
        checked := id == signal.checkboxId;
      }
    }

    /** `handle_mouse`: a left click asks the event loop to select this box. */
    method HandleMouse(mouse: MouseEvent)
      modifies tx
      ensures tx.sent == old(tx.sent) + if mouse.kind == LeftDown then [SelectCheckbox(id)] else []
    {
      if mouse.kind == LeftDown {
        tx.Send(SelectCheckbox(id));
      }
    }

    /** `length`: the caption's character count plus the two columns of the tick, cut to u16. */
    function Length(): (r: u16)
      reads this
      ensures |caption| + 2 < 0x1_0000 ==> r == |caption| + 2
    {
      (|caption| + 2) % 0x1_0000
    }
  }

  /** The caption each box receives in `init`: 移动 (mobile), 联通 (unicom), 电信 (telecom) and 其他 (other). */
  function Label(s: Suffix): (r: string)
    ensures |r| == 2
  {
    match s
    case ChinaMobile => "移动"
    case ChinaUnicom => "联通"
    case ChinaTelecom => "电信"
    case Local => "其他"
  }

  /** The four ids a group's boxes draw one after another differ. */
  lemma FourIdsDistinct(start: u16)
    ensures var a, b, c, d := start, (start + 1) % 0x1_0000, (start + 2) % 0x1_0000, (start + 3) % 0x1_0000;
      a != b && a != c && a != d && b != c && b != d && c != d
  {
    ConsecutiveIdsDistinct(start, 0, 1);
    ConsecutiveIdsDistinct(start, 0, 2);
    ConsecutiveIdsDistinct(start, 0, 3);
    ConsecutiveIdsDistinct(start, 1, 2);
    ConsecutiveIdsDistinct(start, 1, 3);
    ConsecutiveIdsDistinct(start, 2, 3);
  }

  /** The four boxes and the carrier they stand for. */
  class Group {
    const mobile: Checkbox
    const unicom: Checkbox
    const telecom: Checkbox
    const local: Checkbox
    const tx: Channel
    var selected: Suffix
    var area: Rect

    /** The box that stands for a carrier. */
    function BoxOf(s: Suffix): Checkbox {
      match s
      case ChinaMobile => mobile
      case ChinaUnicom => unicom
      case ChinaTelecom => telecom
      case Local => local
    }

    /** Four different boxes with four different ids, all sending on the group's channel. */
    ghost predicate Valid() {
      && mobile != unicom && mobile != telecom && mobile != local
      && unicom != telecom && unicom != local && telecom != local
      && mobile.id != unicom.id && mobile.id != telecom.id && mobile.id != local.id
      && unicom.id != telecom.id && unicom.id != local.id && telecom.id != local.id
      && mobile.tx == tx && unicom.tx == tx && telecom.tx == tx && local.tx == tx
    }

    /** The carrier whose box has id `i`, looked up in the order `handle_signal` tries them. */
    function SuffixOf(i: u16): (r: Option<Suffix>)
      requires Valid()
      ensures r.Some? ==> BoxOf(r.value).id == i
      ensures r.None? ==> mobile.id != i && unicom.id != i && telecom.id != i && local.id != i
    {
      if i == mobile.id then Some(ChinaMobile)
      else if i == unicom.id then Some(ChinaUnicom)
      else if i == telecom.id then Some(ChinaTelecom)
      else if i == local.id then Some(Local)
      else None
    }

    /** Exactly one box is ticked: the one for the selected carrier. */
    ghost predicate OneChecked()
      reads mobile, unicom, telecom, local, this
    {
      forall s :: BoxOf(s).checked <==> s == selected
    }

    /** `Group::default()` with the action sender registered; the boxes take four consecutive ids. */
    constructor (counter: IdCounter, tx: Channel, initial: Suffix)
      modifies counter
      ensures Valid() && this.tx == tx && selected == initial && area == NoArea
      ensures fresh(mobile) && fresh(unicom) && fresh(telecom) && fresh(local)
      ensures mobile.id == old(counter.next) && unicom.id == (old(counter.next) + 1) % 0x1_0000
      ensures telecom.id == (old(counter.next) + 2) % 0x1_0000 && local.id == (old(counter.next) + 3) % 0x1_0000
      ensures counter.next == (old(counter.next) + 4) % 0x1_0000
      ensures forall s :: BoxOf(s).caption == [] && !BoxOf(s).checked
    {
      ghost var start := counter.next;
      mobile := new Checkbox(counter, tx);
      unicom := new Checkbox(counter, tx);
      NextId(start, 1);
      assert counter.next == (start as int + 2) % 0x1_0000;
      telecom := new Checkbox(counter, tx);
      NextId(start, 2);
      assert counter.next == (start as int + 3) % 0x1_0000;
      local := new Checkbox(counter, tx);
      NextId(start, 3);
      this.tx := tx;
      selected := initial;
      area := NoArea;
      new;
      FourIdsDistinct(start);
    }

    /** `update_struct`: untick all four boxes, then tick the selected carrier's. */
    method UpdateStruct()
      requires Valid()
      modifies mobile`checked, unicom`checked, telecom`checked, local`checked
      ensures OneChecked()
    {
      mobile.checked := false;
      telecom.checked := false;
      unicom.checked := false;
      local.checked := false;
      match selected
      case ChinaMobile => mobile.checked := true;
      case ChinaUnicom => unicom.checked := true;
      case ChinaTelecom => telecom.checked := true;
      case Local => local.checked := true;
    }

    /** `select`: remember the carrier and tick its box alone. */
    method Select(s: Suffix)
      requires Valid()
      modifies this`selected, mobile`checked, unicom`checked, telecom`checked, local`checked
      ensures selected == s && OneChecked()
    {
      selected := s;
      UpdateStruct();
    }

    /** `length`: the four boxes' lengths added as u16, which must not overflow. */
    function Length(): (r: u16)
      reads mobile, unicom, telecom, local
      requires mobile.Length() + telecom.Length() + unicom.Length() + local.Length() < 0x1_0000
      ensures r == mobile.Length() + telecom.Length() + unicom.Length() + local.Length()
    {
      mobile.Length() + telecom.Length() + unicom.Length() + local.Length()
    }

    /** `init`: give every box its carrier's caption and tick the selected carrier's box. */
    method Init()
      requires Valid()
      modifies mobile, unicom, telecom, local
      ensures mobile.caption == old(mobile.caption) + Label(ChinaMobile)
      ensures unicom.caption == old(unicom.caption) + Label(ChinaUnicom)
      ensures telecom.caption == old(telecom.caption) + Label(ChinaTelecom)
      ensures local.caption == old(local.caption) + Label(Local)
      ensures forall s :: BoxOf(s).area == old(BoxOf(s).area)
      ensures OneChecked()
      ensures old(mobile.caption) == old(unicom.caption) == old(telecom.caption) == old(local.caption) == []
        ==> Length() == 16
    {
      mobile.caption := mobile.caption + Label(ChinaMobile);
      unicom.caption := unicom.caption + Label(ChinaUnicom);
      telecom.caption := telecom.caption + Label(ChinaTelecom);
      local.caption := local.caption + Label(Local);
      UpdateStruct();
    }

    /**
     * `handle_signal`: `CheckboxSelected(i)` selects the carrier whose box has
     * id `i` (if any), ticks exactly the boxes with id `i`, and asks for a
     * redraw; other signals change nothing.
     */
    method HandleSignal(signal: Signal)
      requires Valid()
      modifies this`selected, mobile`checked, unicom`checked, telecom`checked, local`checked, tx
      ensures signal.CheckboxSelected? ==>
        && selected == (match SuffixOf(signal.checkboxId) case Some(s) => s case None => old(selected))
        && (forall s :: BoxOf(s).checked <==> BoxOf(s).id == signal.checkboxId)
        && tx.sent == old(tx.sent) + [Draw]
      ensures signal.CheckboxSelected? && SuffixOf(signal.checkboxId).Some? ==> OneChecked()
      ensures signal.CheckboxSelected? && SuffixOf(signal.checkboxId).None? ==> forall s :: !BoxOf(s).checked
      ensures !signal.CheckboxSelected? ==>
        && selected == old(selected) && tx.sent == old(tx.sent)
        && forall s :: BoxOf(s).checked == old(BoxOf(s).checked)
    {
      if signal.CheckboxSelected? {
        var i := signal.checkboxId;
        if i == mobile.id {
          selected := ChinaMobile;
        } else if i == unicom.id {
          selected := ChinaUnicom;
        } else if i == telecom.id {
          selected := ChinaTelecom;
        } else if i == local.id {
          selected := Local;
        }
        mobile.HandleSignal(CheckboxSelected(i));
        unicom.HandleSignal(CheckboxSelected(i));
        telecom.HandleSignal(CheckboxSelected(i));
        local.HandleSignal(signal);
        tx.Send(Draw);
      }
    }

    /** The box a click at a cell lands on, tried in the order mobile, telecom, unicom, local. */
    function HitBox(column: u16, row: u16): (r: Option<Checkbox>)
      reads mobile, unicom, telecom, local
      ensures r.Some? ==> r.value.area.Contains(column, row)
      ensures r.None? <==> (!mobile.area.Contains(column, row) && !telecom.area.Contains(column, row)
                            && !unicom.area.Contains(column, row) && !local.area.Contains(column, row))
    {
      if mobile.area.Contains(column, row) then Some(mobile)
      else if telecom.area.Contains(column, row) then Some(telecom)
      else if unicom.area.Contains(column, row) then Some(unicom)
      else if local.area.Contains(column, row) then Some(local)
      else None
    }

    /** `handle_mouse`: hand the event to the box under the mouse, if any. */
    method HandleMouse(mouse: MouseEvent)
      requires Valid()
      modifies tx
      ensures var hit := HitBox(mouse.column, mouse.row);
        tx.sent == old(tx.sent) + if hit.Some? && mouse.kind == LeftDown then [SelectCheckbox(hit.value.id)] else []
    {
      if mobile.area.Contains(mouse.column, mouse.row) {
        mobile.HandleMouse(mouse);
      } else if telecom.area.Contains(mouse.column, mouse.row) {
        telecom.HandleMouse(mouse);
      } else if unicom.area.Contains(mouse.column, mouse.row) {
        unicom.HandleMouse(mouse);
      } else if local.area.Contains(mouse.column, mouse.row) {
        local.HandleMouse(mouse);
      }
    }
  }
}
