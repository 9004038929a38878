/**
 * The main menu (tui/src/component/menu/mod.rs): two entries, "set account"
 * and "log out", a cursor the arrow keys move round-robin, and Enter or a
 * click on an entry to run it.
 */
module MenuWidget {
  import opened Wrappers
  import opened UiData

  /** A menu entry; `default()` is SetUser. */
  datatype Selection = SetUser | Logout

  /** What running an entry asks of the event loop: the account form, or a logout. */
  function Command(s: Selection): (a: Action)
    ensures a.JumpTo? <==> s == SetUser
    ensures a.JumpTo? ==> a.page == Form
    ensures !a.JumpTo? ==> a == Action.Logout
  {
    match s
    case SetUser => JumpTo(Form)
    case Logout => Action.Logout
  }

  /** The two entries ask for different things. */
  lemma CommandInjective(s: Selection, t: Selection)
    ensures Command(s) == Command(t) ==> s == t
  {
  }

  /** The cursor one entry up, wrapping from the first entry to the last. */
  function Prev(i: nat, n: nat): (r: nat)
    requires i < n
    ensures r < n
    ensures i > 0 ==> r == i - 1
    ensures i == 0 ==> r == n - 1
  {
    var x := i + n - 1;
    assert i == 0 ==> x < n;
    assert i > 0 ==> x - n < n && x == n + (i - 1);
    x % n
  }

  /** The cursor one entry down, wrapping from the last entry to the first. */
  function Next(i: nat, n: nat): (r: nat)
    requires i < n
    ensures r < n
    ensures i < n - 1 ==> r == i + 1
    ensures i == n - 1 ==> r == 0
  {
    (i + 1) % n
  }

  /** Up undoes Down and Down undoes Up. */
  lemma PrevNextInverse(i: nat, n: nat)
    requires i < n
    ensures Next(Prev(i, n), n) == i && Prev(Next(i, n), n) == i
  {
  }

  /** With two entries both arrows just switch to the other entry. */
  lemma TwoEntriesToggle(i: nat)
    requires i < 2
    ensures Prev(i, 2) == Next(i, 2) == 1 - i
  {
  }

  /** The first of the areas, from index `from` on, that contains the cell. */
  function FirstHit(areas: seq<Rect>, column: u16, row: u16, from: nat): (r: Option<nat>)
    requires from <= |areas|
    ensures r.Some? ==> from <= r.value < |areas| && areas[r.value].Contains(column, row)
    ensures r.Some? ==> forall k :: from <= k < r.value ==> !areas[k].Contains(column, row)
    ensures r.None? ==> forall k :: from <= k < |areas| ==> !areas[k].Contains(column, row)
    decreases |areas| - from
  {
    if from == |areas| then None
    else if areas[from].Contains(column, row) then Some(from)
    else FirstHit(areas, column, row, from + 1)
  }

  class Menu {
    var selecton: nat
    var menu: seq<Selection>
    var selAreas: seq<Rect>
    var area: Rect
    const tx: Channel

    /** Two entries, two entry areas, and the cursor on an entry. */
    ghost predicate Valid()
      reads this
    {
      |menu| == 2 && |selAreas| == 2 && selecton < |menu|
    }

    /** `Menu::default()` with the action sender registered: both entries are still SetUser until `init`. */
    constructor (tx: Channel)
      ensures Valid() && this.tx == tx
      ensures selecton == 0 && menu == [SetUser, SetUser] && selAreas == [NoArea, NoArea] && area == NoArea
    {
      selecton := 0;
      menu := [SetUser, SetUser];
      selAreas := [NoArea, NoArea];
      area := NoArea;
      this.tx := tx;
    }

    /** `init`: the entries become "set account" then "log out". */
    method Init()
      requires Valid()
      modifies this`menu
      ensures Valid() && menu == [SetUser, Selection.Logout]
    {
      menu := [SetUser, Selection.Logout];
    }

    /** `execute`: send the entry's command. */
    method Execute(s: Selection)
      modifies tx
      ensures tx.sent == old(tx.sent) + [Command(s)]
    {
      match s
      case SetUser => tx.Send(JumpTo(Form));
      case Logout => tx.Send(Action.Logout);
    }

    /**
     * `handle_key`: on anything but a release, Up and Down move the cursor
     * round-robin and ask for a redraw, and Enter runs the entry under the
     * cursor (without a redraw); every other key does nothing.
     */
    method HandleKey(key: KeyEvent)
      requires Valid()
      modifies this`selecton, tx
      ensures Valid()
      ensures key.kind != Release && key.code == Up ==>
        selecton == Prev(old(selecton), 2) && tx.sent == old(tx.sent) + [Draw]
      ensures key.kind != Release && key.code == Down ==>
        selecton == Next(old(selecton), 2) && tx.sent == old(tx.sent) + [Draw]
      ensures key.kind != Release && key.code == Enter ==>
        selecton == old(selecton) && tx.sent == old(tx.sent) + [Command(menu[selecton])]
      ensures key.kind == Release || key.code !in {Up, Down, Enter} ==>
        selecton == old(selecton) && tx.sent == old(tx.sent)
    {
      if key.kind != Release {
        match key.code
        case Up =>
          selecton := (selecton + |menu| - 1) % |menu|;
          tx.Send(Draw);
        case Down =>
          selecton := (selecton + 1) % |menu|;
          tx.Send(Draw);
        case Enter =>
          Execute(menu[selecton]);
        case _ =>
      }
    }

    /**
     * `handle_mouse`: a left click on an entry's area moves the cursor there,
     * runs that entry and asks for a redraw; the first matching area wins.
     */
    method HandleMouse(mouse: MouseEvent)
      requires Valid()
      modifies this`selecton, tx
      ensures Valid()
      ensures var hit := if mouse.kind == LeftDown then FirstHit(selAreas, mouse.column, mouse.row, 0) else None;
        match hit
        case Some(i) => selecton == i && tx.sent == old(tx.sent) + [Command(menu[i]), Draw]
        case None => selecton == old(selecton) && tx.sent == old(tx.sent)
    {
      if mouse.kind == LeftDown {
        var i := 0;
        while i < |selAreas|
          invariant 0 <= i <= |selAreas|
          invariant FirstHit(selAreas, mouse.column, mouse.row, 0) == FirstHit(selAreas, mouse.column, mouse.row, i)
          invariant selecton == old(selecton) && tx.sent == old(tx.sent)
          decreases |selAreas| - i
        {
          if selAreas[i].Contains(mouse.column, mouse.row) {
            selecton := i;
            Execute(menu[i]);
            tx.Send(Draw);
            break;
          }
          i := i + 1;
        }
      }
    }
  }
}
