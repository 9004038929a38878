/**
 * The values the terminal UI's widgets exchange with its event loop: the
 * actions a widget sends, the signals the loop sends back, keyboard and mouse
 * events, screen rectangles, and the two shared pieces of state every widget
 * touches, the action channel and the id counters.
 */
module UiData {
  import Utf8

  type u16 = x: int | 0 <= x < 0x1_0000

  /** The carrier a user's account belongs to (the TUI's own copy of `Suffix`). */
  datatype Suffix = ChinaMobile | ChinaUnicom | ChinaTelecom | Local

  /** Account data as the form collects it; `id` and `password` are the UTF-8 bytes of Rust `String`s. */
  datatype UserInfo = UserInfo(id: seq<Utf8.byte>, password: seq<Utf8.byte>, suffix: Suffix)

  datatype AppPage = Menu | Form

  /** What a widget asks the event loop to do. */
  datatype Action =
    | Draw
    | Quit
    | PingDaemon
    | GetAccount
    | SelectInput(inputId: u16)
    | SelectCheckbox(checkboxId: u16)
    | SetAccount(user: UserInfo)
    | JumpTo(page: AppPage)
    | Logout

  /** What the event loop tells the widgets; `Other` stands for terminal events, resizes and errors. */
  datatype Signal =
    | InputSelected(inputId: u16)
    | CheckboxSelected(checkboxId: u16)
    | DaemonPong
    | UserInfoReceived(user: UserInfo)
    | ChangePage(page: AppPage)
    | Exit
    | Other

  datatype KeyKind = Press | Repeat | Release

  /** The keys the widgets react to; `OtherKey` is every other key code. */
  datatype KeyCode = Backspace | Enter | Tab | Esc | Up | Down | Char(c: char) | OtherKey

  datatype KeyEvent = KeyEvent(code: KeyCode, kind: KeyKind)

  /** A left-button press, or any other mouse event (other buttons, releases, drags, moves, scrolls). */
  datatype MouseKind = LeftDown | OtherMouse

  datatype MouseEvent = MouseEvent(kind: MouseKind, column: u16, row: u16)

  /** u16 addition that sticks at the maximum instead of overflowing. */
  function SaturatingAdd(a: u16, b: u16): u16 {
    if a + b < 0x1_0000 then a + b else 0xFFFF
  }

  /** A screen rectangle: left column, top row, width and height. */
  datatype Rect = Rect(x: u16, y: u16, width: u16, height: u16) {
    /** The cell lies in the rectangle, whose right and bottom edges are saturating sums. */
    predicate Contains(column: u16, row: u16)
      ensures Contains(column, row) ==> 0 < width && 0 < height && x <= column < 0xFFFF && y <= row < 0xFFFF
      ensures x + width < 0x1_0000 && y + height < 0x1_0000 ==>
        (Contains(column, row) <==> x <= column < x + width && y <= row < y + height)
    {
      x <= column < SaturatingAdd(x, width) && y <= row < SaturatingAdd(y, height)
    }
  }

  /** The rectangle a widget has before it is first drawn. */
  const NoArea := Rect(0, 0, 0, 0)

  /** A widget that has not been drawn yet is hit by no click. */
  lemma NoAreaContainsNothing(column: u16, row: u16)
    ensures !NoArea.Contains(column, row)
  {
  }

  /** The sending half of the unbounded action channel: what has been sent on it, in order. */
  class Channel {
    var sent: seq<Action>

    constructor ()
      ensures sent == []
    {
      sent := [];
    }

    method Send(a: Action)
      modifies this
      ensures sent == old(sent) + [a]
    {
      sent := sent + [a];
    }
  }

  /** A process-wide `AtomicU16` id counter; `fetch_add` wraps around at 2^16. */
  class IdCounter {
    var next: u16

    constructor (start: u16)
      ensures next == start
    {
      next := start;
    }

    method FetchAdd() returns (id: u16)
      modifies this
      ensures id == old(next)
      ensures next == (old(next) + 1) % 0x1_0000
    {
      id := next;
      next := (next + 1) % 0x1_0000;
    }
  }

  /** The id drawn after the one at offset `k` from `start` is the one at offset `k + 1`, wrap-around included. */
  lemma NextId(start: u16, k: nat)
    ensures ((start + k) % 0x1_0000 + 1) % 0x1_0000 == (start + k + 1) % 0x1_0000
  {
    if start + k + 1 < 0x1_0000 {
      assert (start + k) % 0x1_0000 == start + k;
    }
  }

  /** Up to 2^16 ids drawn one after another from a counter are pairwise distinct, wrap-around included. */
  lemma ConsecutiveIdsDistinct(start: u16, i: nat, j: nat)
    requires i < j < 0x1_0000
    ensures (start + i) % 0x1_0000 != (start + j) % 0x1_0000
  {
  }
}
