/**
 * The fixed-pool game of as9/src/as9.cpp: the same flag pools and TAB selection as as8, plus a
 * goal entity with a score latch and an in-game chat (a line editor and a bounded message log).
 * Positions, distances and the goal's random respawn are floats and randomness; the goal test
 * enters the model as the boolean "the car is within trigger distance of the goal".
 */
module As9Game {
  import opened RoundRobin

  /** `MAX_ENTITIES`: the length of every pool and flag vector. */
  const MaxEntities: nat := 100

  /** `maxChatMessages`: the chat log keeps at most this many messages. */
  const MaxChatMessages: nat := 5

  // ---- Chat log ----

  /**
   * Enter with a non-empty input: `push_back` the message, then `erase(begin())` when the log has
   * grown past the limit. The log is the last messages of (old log + message), newest at the end.
   */
  function PushMessage(log: seq<string>, msg: string): (r: seq<string>)
    ensures |r| == if |log| + 1 > MaxChatMessages then |log| else |log| + 1
    ensures r == (log + [msg])[|log| + 1 - |r|..]
  {
    var grown := log + [msg];
    if |grown| > MaxChatMessages then grown[1..] else grown
  }

  /** The log after sending `sent`, one Enter at a time, from an empty log. */
  function Log(sent: seq<string>): seq<string> {
    if sent == [] then [] else PushMessage(Log(sent[..|sent| - 1]), sent[|sent| - 1])
  }

  /** The newest `min(|s|, 5)` entries of `s`, oldest first. */
  function Newest(s: seq<string>): (r: seq<string>)
    ensures |r| <= MaxChatMessages
  {
    if |s| <= MaxChatMessages then s else s[|s| - MaxChatMessages..]
  }

  /**
   * The log is always the newest five messages sent (all of them while fewer were sent), oldest
   * first: it never exceeds five entries and keeps arrival order.
   */
  lemma {:induction false} LogIsNewestFive(sent: seq<string>)
    ensures Log(sent) == Newest(sent)
  {
    if sent != [] {
      var prev, m := sent[..|sent| - 1], sent[|sent| - 1];
      LogIsNewestFive(prev);
      assert sent == prev + [m];
      PushNewest(prev, m);
    }
  }

  /** Sending one more message to the newest-five log of `prev` gives the newest five of `prev + [m]`. */
  lemma PushNewest(prev: seq<string>, m: string)
    ensures PushMessage(Newest(prev), m) == Newest(prev + [m])
  {
    if MaxChatMessages <= |prev| {
      var log := prev[|prev| - MaxChatMessages..];
      assert (log + [m])[1..] == (prev + [m])[|prev| + 1 - MaxChatMessages..];
    }
  }

  // ---- Line editor ----

  /** The character codes the chat accepts: 32 (space) to 125 (`}`). */
  predicate Printable(key: int) {
    32 <= key <= 125
  }

  /** Every character of `s` has an accepted code. */
  predicate AllPrintable(s: string) {
    forall i :: 0 <= i < |s| ==> Printable(s[i] as int)
  }

  /**
   * The keys the `while (key > 0)` loop consumes from the queue `GetCharPressed` drains: the
   * codes before the first non-positive one.
   */
  function Drained(queue: seq<int>): (r: seq<int>)
    ensures |r| <= |queue| && r == queue[..|r|]
    ensures forall i :: 0 <= i < |r| ==> r[i] > 0
    ensures |r| < |queue| ==> queue[|r|] <= 0
  {
    if queue == [] || queue[0] <= 0 then [] else [queue[0]] + Drained(queue[1..])
  }

  /** The characters that typing `keys` appends: the accepted codes, in arrival order. */
  function Accepted(keys: seq<int>): (r: string)
    ensures AllPrintable(r)
    ensures |r| <= |keys|
  {
    if keys == [] then []
    else Accepted(keys[..|keys| - 1]) + (if Printable(keys[|keys| - 1]) then [keys[|keys| - 1] as char] else [])
  }

  /**
   * Typing `a` and then `b` appends what each appends, in that order. With `AcceptedOne` this fixes
   * `Accepted` on every queue: the printable keys, in arrival order, and nothing else.
   */
  lemma {:induction false} AcceptedAppend(a: seq<int>, b: seq<int>)
    ensures Accepted(a + b) == Accepted(a) + Accepted(b)
  {
    if b != [] {
      var b' := b[..|b| - 1];
      assert (a + b)[..|a + b| - 1] == a + b';
      assert (a + b)[|a + b| - 1] == b[|b| - 1];
      AcceptedAppend(a, b');
    } else {
      assert a + b == a;
    }
  }

  /** A single key appends its character exactly when it is printable. */
  lemma AcceptedOne(k: int)
    ensures Accepted([k]) == if Printable(k) then [k as char] else []
  {
    assert [k][..0] == [];
  }

  /** When every key is printable, all of them are appended, in order. */
  lemma {:induction false} AcceptedAll(keys: seq<int>)
    requires forall i :: 0 <= i < |keys| ==> Printable(keys[i])
    ensures |Accepted(keys)| == |keys|
    ensures forall i :: 0 <= i < |keys| ==> Accepted(keys)[i] as int == keys[i]
  {
    if keys != [] {
      AcceptedAll(keys[..|keys| - 1]);
    }
  }

  /** Keys outside 32..125 contribute nothing. */
  lemma {:induction false} AcceptedNone(keys: seq<int>)
    requires forall i :: 0 <= i < |keys| ==> !Printable(keys[i])
    ensures Accepted(keys) == []
  {
    if keys != [] {
      AcceptedNone(keys[..|keys| - 1]);
    }
  }

  /** The drain loop stops exactly at the first non-positive code. */
  lemma {:induction false} DrainedStops(queue: seq<int>, i: nat)
    requires i <= |queue|
    requires forall j :: 0 <= j < i ==> queue[j] > 0
    requires i == |queue| || queue[i] <= 0
    ensures Drained(queue) == queue[..i]
  {
    if i > 0 {
      DrainedStops(queue[1..], i - 1);
      assert queue == [queue[0]] + queue[1..];
      assert queue[..i] == [queue[0]] + queue[1..][..i - 1];
    }
  }

  /** Backspace: drop the last character when asked and there is one. */
  function Erase(s: string, backspace: bool): (r: string)
    ensures backspace && s != [] ==> r + [s[|s| - 1]] == s
    ensures !(backspace && s != []) ==> r == s
  {
    if backspace && s != [] then s[..|s| - 1] else s
  }

  // ---- Score latch ----

  datatype Latch = Latch(score: int, alreadyScored: bool)

  /**
   * One `GoalSystem` frame: in range and not yet scored adds one point and latches; in range and
   * latched changes nothing; out of range releases the latch.
   */
  function GoalStep(l: Latch, inRange: bool): (r: Latch)
    ensures r.alreadyScored == inRange
    ensures r.score == l.score || r.score == l.score + 1
  {
    if inRange then (if !l.alreadyScored then Latch(l.score + 1, true) else l)
    else Latch(l.score, false)
  }

  /** The latch after the frames `inRange`, first frame first. */
  function Run(l: Latch, inRange: seq<bool>): Latch
    decreases |inRange|
  {
    if inRange == [] then l else Run(GoalStep(l, inRange[0]), inRange[1..])
  }

  /** The number of frames that enter the range: in range, after a frame (or a latch) that was not. */
  function Entries(before: bool, inRange: seq<bool>): nat
    decreases |inRange|
  {
    if inRange == [] then 0
    else (if inRange[0] && !before then 1 else 0) + Entries(inRange[0], inRange[1..])
  }

  /**
   * Over any run of frames the score rises by exactly the number of entries into range (so it
   * never decreases and rises at most once per visit), and the latch ends equal to the last frame.
   */
  lemma {:induction false} ScoreCountsEntries(l: Latch, inRange: seq<bool>)
    ensures Run(l, inRange).score == l.score + Entries(l.alreadyScored, inRange)
    ensures Run(l, inRange).alreadyScored == if inRange == [] then l.alreadyScored else inRange[|inRange| - 1]
    decreases |inRange|
  {
    if inRange != [] {
      ScoreCountsEntries(GoalStep(l, inRange[0]), inRange[1..]);
    }
  }

  /** The globals of as9.cpp that the systems read and write. */
  class Game {
    var hasTransform: seq<bool>
    var hasRender: seq<bool>
    var hasVelocity: seq<bool>
    var hasPhysics2D: seq<bool>
    var selectionPool: seq<bool>
    var entityOrder: seq<nat>
    var selectedIndex: int
    /** The static counter of `CreateEntity`. */
    var next: nat
    var goalEntity: nat
    var score: int
    var alreadyScored: bool
    var chatInput: string
    var chatMessages: seq<string>
    var chatActive: bool

    /**
     * Every vector has `MAX_ENTITIES` slots; ids not yet handed out carry no flag; `entityOrder`
     * lists handed-out ids in creation order, each a car; the log holds at most five non-empty
     * messages and, like the input line, only accepted characters.
     */
    ghost predicate Valid()
      reads this
    {
      EntitiesValid() && ChatValid()
    }

    ghost predicate EntitiesValid()
      reads this`hasTransform, this`hasRender, this`hasVelocity, this`hasPhysics2D, this`selectionPool
      reads this`entityOrder, this`next
    {
      |hasTransform| == MaxEntities && |hasRender| == MaxEntities && |hasVelocity| == MaxEntities &&
      |hasPhysics2D| == MaxEntities && |selectionPool| == MaxEntities &&
      (forall e :: next <= e < MaxEntities ==>
         !hasTransform[e] && !hasRender[e] && !hasVelocity[e] && !hasPhysics2D[e]) &&
      (forall i :: 0 <= i < |entityOrder| ==> entityOrder[i] < next && entityOrder[i] < MaxEntities) &&
      (forall i, j :: 0 <= i < j < |entityOrder| ==> entityOrder[i] < entityOrder[j]) &&
      (forall i :: 0 <= i < |entityOrder| ==>
         hasTransform[entityOrder[i]] && hasRender[entityOrder[i]] &&
         hasVelocity[entityOrder[i]] && hasPhysics2D[entityOrder[i]])
    }

    ghost predicate ChatValid()
      reads this`chatInput, this`chatMessages
    {
      |chatMessages| <= MaxChatMessages &&
      (forall i :: 0 <= i < |chatMessages| ==> chatMessages[i] != [] && AllPrintable(chatMessages[i])) &&
      AllPrintable(chatInput)
    }

    /** The program's start. */
    constructor ()
      ensures Valid()
      ensures next == 0 && entityOrder == [] && selectedIndex == 0
      ensures forall e :: 0 <= e < MaxEntities ==> !selectionPool[e]
      ensures score == 0 && !alreadyScored
      ensures chatInput == [] && chatMessages == [] && !chatActive
    {
      var none := seq(MaxEntities, _ => false);
      hasTransform, hasRender, hasVelocity, hasPhysics2D := none, none, none, none;
      selectionPool := none;
      entityOrder := [];
      selectedIndex := 0;
      next := 0;
      goalEntity := 0;
      score := 0;
      alreadyScored := false;
      chatInput := [];
      chatMessages := [];
      chatActive := false;
    }

    /** `CreateEntity`: hands out consecutive ids from 0. */
    method CreateEntity() returns (e: nat)
      modifies this`next
      ensures e == old(next) && next == old(next) + 1
    {
      e := next;
      next := next + 1;
    }

    /** `CreateCar`: a new id with all four flags, appended to `entityOrder`. */
    method CreateCar() returns (e: nat)
      requires Valid() && next < MaxEntities
      modifies this`next, this`hasTransform, this`hasRender, this`hasVelocity, this`hasPhysics2D, this`entityOrder
      ensures Valid()
      ensures e == old(next) && next == e + 1 && entityOrder == old(entityOrder) + [e]
      ensures hasTransform == old(hasTransform)[e := true] && hasRender == old(hasRender)[e := true]
      ensures hasVelocity == old(hasVelocity)[e := true] && hasPhysics2D == old(hasPhysics2D)[e := true]
    {
      e := CreateEntity();
      hasTransform, hasRender := hasTransform[e := true], hasRender[e := true];
      hasVelocity, hasPhysics2D := hasVelocity[e := true], hasPhysics2D[e := true];
      entityOrder := entityOrder + [e];
    }

    /** `CreateGoal`: a new id with only Transform and Render; it is not selectable. */
    method CreateGoal() returns (e: nat)
      requires Valid() && next < MaxEntities
      modifies this`next, this`hasTransform, this`hasRender, this`hasVelocity, this`hasPhysics2D, this`entityOrder
      ensures Valid()
      ensures e == old(next) && next == e + 1 && entityOrder == old(entityOrder) && e !in entityOrder
      ensures hasTransform == old(hasTransform)[e := true] && hasRender == old(hasRender)[e := true]
      ensures hasVelocity == old(hasVelocity) && hasPhysics2D == old(hasPhysics2D)
      ensures !hasVelocity[e] && !hasPhysics2D[e]
    {
      e := CreateEntity();
      hasTransform, hasRender := hasTransform[e := true], hasRender[e := true];
    }

    /**
     * `SelectionSystem`: on TAB, clear the selected entity's flag, step `selectedIndex` cyclically
     * and set the flag of the entity it now names. A single selection stays single.
     */
    method SelectionSystem(tab: bool)
      requires Valid()
      requires tab ==> 0 <= selectedIndex < |entityOrder|
      modifies this`selectionPool, this`selectedIndex
      ensures Valid()
      ensures !tab ==> selectionPool == old(selectionPool) && selectedIndex == old(selectedIndex)
      ensures tab ==> selectedIndex == NextIndex(old(selectedIndex), |entityOrder|)
      ensures tab ==> (selectionPool ==
        old(selectionPool)[old(entityOrder[selectedIndex]) := false][entityOrder[selectedIndex] := true])
      ensures old(SelectedExactly(selectionPool, entityOrder, selectedIndex)) ==>
        SelectedExactly(selectionPool, entityOrder, selectedIndex)
    {
      if tab {
        ghost var pool0, index0 := selectionPool, selectedIndex;
        selectionPool := selectionPool[entityOrder[selectedIndex] := false];
        selectedIndex := (selectedIndex + 1) % |entityOrder|;
        selectionPool := selectionPool[entityOrder[selectedIndex] := true];
        if SelectedExactly(pool0, entityOrder, index0) {
          MoveSelection(pool0, entityOrder, index0, selectedIndex);
        }
      }
    }

    /**
     * `GoalSystem`'s score latch, with the distance test given as `inRange`: the frame's effect is
     * `GoalStep`, whose runs `ScoreCountsEntries` characterises.
     */
    method GoalSystem(inRange: bool)
      requires Valid() && 0 <= selectedIndex < |entityOrder| && goalEntity < MaxEntities
      modifies this`score, this`alreadyScored
      ensures Valid()
      ensures Latch(score, alreadyScored) == GoalStep(old(Latch(score, alreadyScored)), inRange)
    {
      if inRange {
        if !alreadyScored {
          score := score + 1;
          alreadyScored := true;
        }
      } else {
        alreadyScored := false;
      }
    }

    /**
     * `ChatSystem`, with the frame's input as parameters: `enter` and `backspace` are the two key
     * presses and `queue` is what successive `GetCharPressed` calls return (then 0).
     * Enter sends a non-empty line while active and toggles the chat; while active, the accepted
     * characters of the drained keys are appended and Backspace drops the last character.
     */
    method ChatSystem(enter: bool, queue: seq<int>, backspace: bool)
      requires Valid()
      modifies this`chatInput, this`chatMessages, this`chatActive
      ensures Valid()
      ensures chatActive == (old(chatActive) != enter)
      ensures chatMessages == if enter && old(chatActive) && old(chatInput) != []
        then PushMessage(old(chatMessages), old(chatInput)) else old(chatMessages)
      ensures var line := if enter && old(chatActive) then [] else old(chatInput);
        chatInput == if chatActive then Erase(line + Accepted(Drained(queue)), backspace) else line
    {
      if enter {
        Enter();
      }
      if chatActive {
        TypeLine(queue, backspace);
      }
    }

    /**
     * The active branch of `ChatSystem`: the drained keys' accepted characters are appended, then
     * Backspace drops the last character.
     */
    method TypeLine(queue: seq<int>, backspace: bool)
      requires ChatValid()
      modifies this`chatInput
      ensures ChatValid()
      ensures chatInput == Erase(old(chatInput) + Accepted(Drained(queue)), backspace)
    {
      TypeKeys(queue);
      if backspace && chatInput != [] {
        chatInput := chatInput[..|chatInput| - 1];
      }
    }

    /**
     * The Enter branch of `ChatSystem`: while active, a non-empty line becomes the newest message
     * (dropping the oldest past five) and the line is cleared; the chat toggles either way.
     */
    method Enter()
      requires ChatValid()
      modifies this`chatInput, this`chatMessages, this`chatActive
      ensures ChatValid()
      ensures chatActive == !old(chatActive)
      ensures chatMessages == if old(chatActive) && old(chatInput) != []
        then PushMessage(old(chatMessages), old(chatInput)) else old(chatMessages)
      ensures chatInput == if old(chatActive) then [] else old(chatInput)
    {
      if chatActive && chatInput != [] {
        chatMessages := chatMessages + [chatInput];
        if |chatMessages| > MaxChatMessages {
          chatMessages := chatMessages[1..];
        }
        chatInput := [];
      }
      chatActive := !chatActive;
    }

    /**
     * The `while (key > 0)` loop of `ChatSystem`: drain the key queue, appending the accepted
     * characters in arrival order.
     */
    method TypeKeys(queue: seq<int>)
      modifies this`chatInput
      ensures chatInput == old(chatInput) + Accepted(Drained(queue))
    {
      var i := 0;
      var key := if i < |queue| then queue[i] else 0;
      while key > 0
        invariant 0 <= i <= |queue|
        invariant forall j :: 0 <= j < i ==> queue[j] > 0
        invariant key == if i < |queue| then queue[i] else 0
        invariant chatInput == old(chatInput) + Accepted(queue[..i])
        decreases |queue| - i
      {
        assert queue[..i + 1][..i] == queue[..i];
        if key >= 32 && key <= 125 {
          chatInput := chatInput + [key as char];
        }
        i := i + 1;
        key := if i < |queue| then queue[i] else 0;
      }
      DrainedStops(queue, i);
    }

    /**
     * The setup of `main`: one car, its selection flag, then the goal. After it the car (id 0) is the
     * only selectable and the only selected entity, and the goal is id 1.
     */
    method Setup()
      requires Valid() && next == 0 && entityOrder == [] && selectedIndex == 0
      requires forall e :: 0 <= e < MaxEntities ==> !selectionPool[e]
      modifies this
      ensures Valid()
      ensures entityOrder == [0] && goalEntity == 1 && next == 2
      ensures SelectedExactly(selectionPool, entityOrder, selectedIndex)
      ensures hasTransform[goalEntity] && hasRender[goalEntity] && !hasVelocity[goalEntity]
    {
      var car := CreateCar();
      ghost var none := selectionPool;
      selectionPool := selectionPool[car := true];
      assert SelectedExactly(selectionPool, entityOrder, selectedIndex) by {
        assert entityOrder[selectedIndex] == car;
        forall e | 0 <= e < MaxEntities
          ensures selectionPool[e] <==> e == car
        {
          assert e != car ==> selectionPool[e] == none[e];
        }
      }
      goalEntity := CreateGoal();
    }
  }
}
