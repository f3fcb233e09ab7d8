/** The lottery picker component: its state as the fields of a class, and
    one method per event handler. Timers become explicit steps: the
    three-second message clear is `ClearMessage`, the two-second end of the
    purchase animation is `CompletePurchase`, the one-second countdown tick
    is `Tick`. The clock and the random shuffle are parameters. */
module Game {
  import opened Optional
  import opened Selection
  import opened Geometry
  import opened Countdown

  const StartingCredits: int := 500
  const TicketPrice: int := 25

  const OnlyTenMessage: string := "You can only select 10 numbers!"
  const ExactlyTenMessage: string := "Please select exactly 10 numbers!"
  const NoCreditsMessage: string := "Not enough credits!"

  datatype Cursor = DefaultCursor | PointerCursor | NotAllowedCursor

  datatype PurchaseCheck = IncompleteSelection | InsufficientCredits | Approved

  /** Which gradient fills a ball, and whether the dark overlay with a cross
      is drawn over it. The hover shadow and glow ring are `HoverGlow`. */
  datatype BallStyle = SelectedBall | HoveredBall | DisabledBall | PlainBall

  /** The purchase checks in the order the source makes them: exactly ten
      numbers first, then enough credits for one ticket. */
  function CheckPurchase(count: int, credits: int): (r: PurchaseCheck)
    ensures r == Approved <==> count == MaxPicks && credits >= TicketPrice
    ensures r == IncompleteSelection <==> count != MaxPicks
    ensures r == Approved ==> credits - TicketPrice >= 0
  {
    if count != MaxPicks then IncompleteSelection
    else if credits < TicketPrice then InsufficientCredits
    else Approved
  }

  /** The message of a refused purchase. */
  function RefusalMessage(r: PurchaseCheck): (msg: string)
    requires r != Approved
    ensures msg == ExactlyTenMessage <==> r == IncompleteSelection
    ensures msg == NoCreditsMessage <==> r == InsufficientCredits
  {
    assert ExactlyTenMessage[0] != NoCreditsMessage[0];
    match r
    case IncompleteSelection => ExactlyTenMessage
    case InsufficientCredits => NoCreditsMessage
  }

  /** The cursor over a ball: not-allowed exactly when the ticket is full
      and the ball is not on it. */
  function CursorOver(cell: Cell, count: int): (c: Cursor)
    ensures c != DefaultCursor
    ensures c == NotAllowedCursor <==> count >= MaxPicks && !cell.selected
  {
    if Selectable(cell, count) then PointerCursor else NotAllowedCursor
  }

  /** Selected beats hovered beats plain; a ball that cannot be selected is
      greyed out and never shows the hover glow. */
  function Style(cell: Cell, isHovered: bool, count: int): (s: BallStyle)
    ensures s == SelectedBall <==> cell.selected
    ensures s == DisabledBall <==> count >= MaxPicks && !cell.selected
    ensures s == HoveredBall <==> isHovered && !cell.selected && count < MaxPicks
  {
    if cell.selected then SelectedBall
    else if isHovered && Selectable(cell, count) then HoveredBall
    else if !Selectable(cell, count) then DisabledBall
    else PlainBall
  }

  /** The hover shadow and the gold glow ring: drawn on a hovered ball that
      can be selected, so also on a hovered ball already on the ticket, and
      never on a greyed-out one. */
  function HoverGlow(cell: Cell, isHovered: bool, count: int): (g: bool)
    ensures g <==> isHovered && (cell.selected || count < MaxPicks)
    ensures g ==> Style(cell, isHovered, count) != DisabledBall
    ensures g && cell.selected ==> Style(cell, isHovered, count) == SelectedBall
  {
    isHovered && Selectable(cell, count)
  }

  /** What is seen is what can be clicked: a ball is greyed out exactly when
      the cursor over it is not-allowed, and exactly when a click on it is
      refused. */
  lemma GreyedOutMeansRefused(b: Board, i: nat, isHovered: bool)
    requires i < |b.numbers|
    ensures var count := |b.selectedNumbers|;
      && ((Style(b.numbers[i], isHovered, count) == DisabledBall) <==>
          (CursorOver(b.numbers[i], count) == NotAllowedCursor))
      && ((Style(b.numbers[i], isHovered, count) == DisabledBall) <==>
          (Toggle(b, i) == SelectionFull))
  {
  }

  class LotteryGame {
    var numbers: seq<Cell>
    var selectedNumbers: seq<int>
    var credits: int
    var nextDraw: int
    var timeLeft: string
    var message: string
    var isAnimating: bool
    var hoveredBall: Option<nat>
    var cursor: Cursor

    function CurrentBoard(): Board
      reads this
    {
      Board(numbers, selectedNumbers)
    }

    ghost predicate Valid()
      reads this
    {
      && Consistent(CurrentBoard())
      && credits >= 0
      && (hoveredBall.Some? ==> hoveredBall.value < CellCount)
    }

    /** The fields hold the outcome of a click on ball i of board b0. */
    ghost predicate ShowsToggle(b0: Board, i: nat)
      reads this
      requires i < |b0.numbers|
    {
      match Toggle(b0, i)
      case SelectionFull => CurrentBoard() == b0 && message == OnlyTenMessage
      case Toggled(b1) => CurrentBoard() == b1 && message == ""
    }

    constructor (now: int)
      ensures Valid()
      ensures CurrentBoard() == InitialBoard()
      ensures credits == StartingCredits && nextDraw == NextDrawTime(now) && timeLeft == ""
      ensures message == "" && !isAnimating && hoveredBall == None && cursor == DefaultCursor
    {
      numbers := InitialNumbers();
      selectedNumbers := [];
      credits := StartingCredits;
      nextDraw := NextDrawTime(now);
      timeLeft := "";
      message := "";
      isAnimating := false;
      hoveredBall := None;
      cursor := DefaultCursor;
      InitialConsistent();
    }

    /** A click on ball `index`. A refused click leaves the grid and the list
        alone and only sets the message. */
    method NumberClick(index: nat)
      requires Valid() && index < |numbers|
      modifies this
      ensures Valid()
      ensures ShowsToggle(old(CurrentBoard()), index)
      ensures credits == old(credits) && nextDraw == old(nextDraw) && timeLeft == old(timeLeft)
      ensures isAnimating == old(isAnimating) && hoveredBall == old(hoveredBall) && cursor == old(cursor)
    {
      var number := numbers[index];
      if |selectedNumbers| >= MaxPicks && !number.selected {
        message := OnlyTenMessage;
        return;
      }
      numbers := FlipValue(numbers, number.value);
      if number.selected {
        selectedNumbers := Without(selectedNumbers, number.value);
      } else {
        selectedNumbers := selectedNumbers + [number.value];
      }
      message := "";
      ToggleKeepsConsistent(old(CurrentBoard()), index);
    }

    /** Quick select: `shuffled` is the random order in which the unselected
        values came out of the shuffle. */
    method QuickSelect(count: nat, shuffled: seq<int>)
      requires Valid()
      requires multiset(shuffled) == multiset(AvailableValues(numbers))
      modifies this
      ensures Valid()
      ensures CurrentBoard() == Selection.QuickSelect(old(CurrentBoard()), shuffled, count)
      ensures credits == old(credits) && nextDraw == old(nextDraw) && timeLeft == old(timeLeft)
      ensures message == old(message) && isAnimating == old(isAnimating)
      ensures hoveredBall == old(hoveredBall) && cursor == old(cursor)
    {
      var randomNumbers := Take(shuffled, count);
      var newSelected := Take(selectedNumbers + randomNumbers, MaxPicks);
      selectedNumbers := newSelected;
      numbers := MarkMembers(numbers, newSelected);
      QuickSelectKeepsConsistent(old(CurrentBoard()), shuffled, count);
    }

    method Reset()
      requires Valid()
      modifies this
      ensures Valid()
      ensures CurrentBoard() == Selection.Reset(old(CurrentBoard())) && message == ""
      ensures credits == old(credits) && nextDraw == old(nextDraw) && timeLeft == old(timeLeft)
      ensures isAnimating == old(isAnimating) && hoveredBall == old(hoveredBall) && cursor == old(cursor)
    {
      ResetClears(CurrentBoard());
      numbers := ClearFlags(numbers);
      selectedNumbers := [];
      message := "";
    }

    /** Buying a ticket at time `now`. A refused purchase changes nothing but
        the message; an approved one debits exactly one ticket price, starts
        the animation and shows the encouragement for the time left. */
    method BuyTicket(now: int)
      requires Valid()
      modifies this
      ensures Valid()
      ensures CurrentBoard() == old(CurrentBoard())
      ensures var verdict := CheckPurchase(|old(selectedNumbers)|, old(credits));
        if verdict == Approved then
          credits == old(credits) - TicketPrice && isAnimating
          && message == Encouragement(old(nextDraw) - now)
        else
          credits == old(credits) && isAnimating == old(isAnimating)
          && message == RefusalMessage(verdict)
      ensures nextDraw == old(nextDraw) && timeLeft == old(timeLeft)
      ensures hoveredBall == old(hoveredBall) && cursor == old(cursor)
    {
      if |selectedNumbers| != MaxPicks {
        message := ExactlyTenMessage;
        return;
      }
      if credits < TicketPrice {
        message := NoCreditsMessage;
        return;
      }
      credits := credits - TicketPrice;
      isAnimating := true;
      message := Encouragement(nextDraw - now);
    }

    /** The end of the purchase animation: the animation stops and the
        selection is reset. */
    method CompletePurchase()
      requires Valid()
      modifies this
      ensures Valid()
      ensures !isAnimating
      ensures CurrentBoard() == Selection.Reset(old(CurrentBoard())) && message == ""
      ensures credits == old(credits) && nextDraw == old(nextDraw) && timeLeft == old(timeLeft)
      ensures hoveredBall == old(hoveredBall) && cursor == old(cursor)
    {
      isAnimating := false;
      Reset();
    }

    /** The delayed clear of a message, whichever message is showing. */
    method ClearMessage()
      requires Valid()
      modifies this`message
      ensures Valid() && message == ""
    {
      message := "";
    }

    /** One countdown tick at time `now`: once the draw time is reached the
        deadline moves to the next draw; before it, the text shows the time
        left. */
    method Tick(now: int)
      requires Valid()
      modifies this`nextDraw, this`timeLeft
      ensures Valid()
      ensures old(nextDraw) - now <= 0 ==>
        nextDraw == NextDrawTime(now) && timeLeft == old(timeLeft)
      ensures old(nextDraw) - now > 0 ==>
        nextDraw == old(nextDraw) && timeLeft == FormatTimeLeft(Split(old(nextDraw) - now))
    {
      var diff := nextDraw - now;
      if diff <= 0 {
        nextDraw := NextDrawTime(now);
        return;
      }
      var remaining := Split(diff);
      timeLeft := FormatTimeLeft(remaining);
    }

    /** The pointer moved to (x, y) on the canvas: every ball is tested, as
        `forEach` does, and the hover and cursor follow the ball hit. */
    method MouseMove(x: real, y: real)
      requires Valid()
      modifies this`hoveredBall, this`cursor
      ensures Valid()
      ensures hoveredBall == HitIndex(x, y)
      ensures match HitIndex(x, y)
        case None => cursor == DefaultCursor
        case Some(i) => cursor == CursorOver(numbers[i], |selectedNumbers|)
    {
      var foundHover := false;
      for index := 0 to CellCount
        invariant !foundHover ==> forall j :: 0 <= j < index ==> !InDisc(x, y, j)
        invariant foundHover ==>
          && hoveredBall.Some? && hoveredBall.value < index && InDisc(x, y, hoveredBall.value)
          && cursor == CursorOver(numbers[hoveredBall.value], |selectedNumbers|)
      {
        var number := numbers[index];
        if InDisc(x, y, index) {
          hoveredBall := Some(index);
          foundHover := true;
          cursor := CursorOver(number, |selectedNumbers|);
        }
      }
      if !foundHover {
        hoveredBall := None;
        cursor := DefaultCursor;
      } else {
        DiscsDisjoint(x, y, hoveredBall.value, HitIndex(x, y).value);
      }
    }

    method MouseLeave()
      requires Valid()
      modifies this`hoveredBall, this`cursor
      ensures Valid() && hoveredBall == None && cursor == DefaultCursor
    {
      hoveredBall := None;
      cursor := DefaultCursor;
    }

    /** A click at (x, y): inside the grid band every ball is tested and a
        ball hit is toggled. At most one ball can be hit, and every ball lies
        inside the band, so the click toggles exactly the ball under it. */
    method Click(x: real, y: real)
      requires Valid()
      modifies this
      ensures Valid()
      ensures match HitIndex(x, y)
        case None => CurrentBoard() == old(CurrentBoard()) && message == old(message)
        case Some(i) => i < |old(numbers)| && ShowsToggle(old(CurrentBoard()), i)
      ensures credits == old(credits) && nextDraw == old(nextDraw) && timeLeft == old(timeLeft)
      ensures isAnimating == old(isAnimating) && hoveredBall == old(hoveredBall) && cursor == old(cursor)
    {
      var hit := HitIndex(x, y);
      assert hit.Some? ==> InClickBand(y) by {
        if hit.Some? {
          DiscInBox(x, y, hit.value);
          BallInsideClickBand(hit.value);
        }
      }
      if InClickBand(y) {
        for index := 0 to CellCount
          invariant Valid() && |old(numbers)| == CellCount
          invariant credits == old(credits) && nextDraw == old(nextDraw) && timeLeft == old(timeLeft)
          invariant isAnimating == old(isAnimating) && hoveredBall == old(hoveredBall)
          invariant cursor == old(cursor)
          invariant hit.None? || index <= hit.value ==>
            CurrentBoard() == old(CurrentBoard()) && message == old(message)
          invariant hit.Some? && hit.value < index ==> ShowsToggle(old(CurrentBoard()), hit.value)
        {
          if InDisc(x, y, index) {
            DiscsDisjoint(x, y, index, hit.value);
            NumberClick(index);
          }
        }
      }
    }
  }

  /** What a caller can conclude from the contracts alone: ten quick-picked
      numbers, a purchase with the starting credits, then the end of the
      animation leave 475 credits, an empty selection and no animation. */
  method PurchaseScenario(now: int)
  {
    var game := new LotteryGame(now);
    var shuffled := AvailableValues(game.numbers);
    game.QuickSelect(MaxPicks, shuffled);
    QuickSelectGrowth(InitialBoard(), shuffled, MaxPicks);
    SelectedCount(InitialBoard());
    assert |game.selectedNumbers| == MaxPicks;
    game.BuyTicket(now);
    assert game.credits == 475 && game.isAnimating;
    game.CompletePurchase();
    assert game.selectedNumbers == [] && !game.isAnimating && game.credits == 475;
  }

}
