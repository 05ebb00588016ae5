/**
 * The task and note logic of TodoView.tsx: today's list with its priority sort and
 * counters, the future list, the reward vault, and the handlers that save, toggle,
 * claim and delete tasks and notes. Every handler maps or filters the old array into a
 * new one. `todayStr` is the `YYYY-MM-DD` of the render; new ids, note colours and the
 * note timestamp are parameters.
 */
module Todos {
  import opened Wrappers
  import opened Seqs
  import opened Sorting
  import opened Text
  import opened Types

  // ---------- today's priority order ----------

  /**
   * The comparator of `todaysTodos` as written. Its second test compares the optional
   * flags with `!==`, so an item whose `isStarred` is undefined and one whose flag is
   * `false` count as different and the second one wins in both directions.
   */
  function CompareAsWritten(a: TodoItem, b: TodoItem): int {
    if a.completed != b.completed then (if a.completed then 1 else -1)
    else if a.isStarred != b.isStarred then (if TruthyBool(a.isStarred) then -1 else 1)
    else CompareTimes(a, b)
  }

  /** The time test: both timed by `localeCompare`, timed before untimed, otherwise a tie. */
  function CompareTimes(a: TodoItem, b: TodoItem): int {
    if TruthyStr(a.time) && TruthyStr(b.time) then LexCompare(a.time.value, b.time.value)
    else if TruthyStr(a.time) then -1
    else if TruthyStr(b.time) then 1
    else 0
  }

  /** Two pending tasks, one never starred (undefined) and one unstarred: each sorts after the other. */
  lemma CompareAsWrittenInconsistent()
    ensures var a := TodoItem("1", "a", false, "2024-05-20", None, None, None, None, None);
            var b := TodoItem("2", "b", false, "2024-05-20", None, None, Some(false), None, Some(false));
            CompareAsWritten(a, b) > 0 && CompareAsWritten(b, a) > 0
  {
  }

  /** The order `sort` is handed by the written comparator is not a total preorder. */
  lemma AsWrittenNotTotalPreorder()
    ensures !IsTotalPreorder((a, b) => CompareAsWritten(a, b) <= 0)
  {
    var a := TodoItem("1", "a", false, "2024-05-20", None, None, None, None, None);
    var b := TodoItem("2", "b", false, "2024-05-20", None, None, Some(false), None, Some(false));
    var le := (a, b) => CompareAsWritten(a, b) <= 0;
    assert !le(a, b) && !le(b, a);
  }

  /** The comparator with the star flags compared by truthiness, as the "starred first" rule means. */
  function CompareToday(a: TodoItem, b: TodoItem): int {
    if a.completed != b.completed then (if a.completed then 1 else -1)
    else if TruthyBool(a.isStarred) != TruthyBool(b.isStarred) then (if TruthyBool(a.isStarred) then -1 else 1)
    else CompareTimes(a, b)
  }

  /** "`a` may stay before `b`" for today's list. */
  predicate TodayLe(a: TodoItem, b: TodoItem) {
    CompareToday(a, b) <= 0
  }

  /** On items whose star flags are all defined, the written comparator is the corrected one. */
  lemma CompareAgreesOnDefinedStars(a: TodoItem, b: TodoItem)
    requires a.isStarred.Some? && b.isStarred.Some?
    ensures CompareAsWritten(a, b) == CompareToday(a, b)
  {
    assert TruthyBool(a.isStarred) == a.isStarred.value && TruthyBool(b.isStarred) == b.isStarred.value;
  }

  lemma TimesLe(a: TodoItem, b: TodoItem)
    ensures CompareTimes(a, b) <= 0 <==>
              (TruthyStr(a.time) && TruthyStr(b.time) && LexLe(a.time.value, b.time.value))
              || (TruthyStr(a.time) && !TruthyStr(b.time))
              || (!TruthyStr(a.time) && !TruthyStr(b.time))
  {
    if TruthyStr(a.time) && TruthyStr(b.time) {
      LexTrichotomy(a.time.value, b.time.value);
      LexIrreflexive(a.time.value);
    }
  }

  /** The corrected comparator is a total preorder, so `sort` is well defined on it. */
  lemma TodayLeTotalPreorder()
    ensures IsTotalPreorder(TodayLe)
  {
    LexLeTotalOrder();
    forall a, b ensures TodayLe(a, b) || TodayLe(b, a) {
      TimesLe(a, b);
      TimesLe(b, a);
    }
    forall a, b, c | TodayLe(a, b) && TodayLe(b, c) ensures TodayLe(a, c) {
      TimesLe(a, b);
      TimesLe(b, c);
      TimesLe(a, c);
    }
  }

  function DatedOn(date: string): TodoItem -> bool {
    (t: TodoItem) => t.date == date
  }

  /** `todaysTodosRaw`: the tasks dated today, in list order. */
  function TodaysTodosRaw(todos: seq<TodoItem>, todayStr: string): seq<TodoItem> {
    Filter(todos, DatedOn(todayStr))
  }

  /** `todaysTodos`: today's tasks in priority order. */
  function TodaysTodos(todos: seq<TodoItem>, todayStr: string): seq<TodoItem> {
    SortBy(TodaysTodosRaw(todos, todayStr), TodayLe)
  }

  /**
   * Today's list holds each task dated today as often as the list does and nothing else;
   * pending tasks come before completed ones; within one status starred before unstarred;
   * then timed before untimed, times in ascending order; ties keep list order.
   */
  lemma TodaysTodosOrder(todos: seq<TodoItem>, todayStr: string)
    ensures var r := TodaysTodos(todos, todayStr);
            && (forall t :: multiset(r)[t] == if t.date == todayStr then multiset(todos)[t] else 0)
            && (forall i, j :: 0 <= i < j < |r| && r[i].completed ==> r[j].completed)
            && (forall i, j :: 0 <= i < j < |r| && r[i].completed == r[j].completed && TruthyBool(r[j].isStarred)
                  ==> TruthyBool(r[i].isStarred))
            && (forall i, j :: 0 <= i < j < |r| && r[i].completed == r[j].completed
                  && TruthyBool(r[i].isStarred) == TruthyBool(r[j].isStarred) && TruthyStr(r[j].time)
                  ==> TruthyStr(r[i].time) && LexLe(r[i].time.value, r[j].time.value))
            && (forall p :: Filter(r, EquivTo(TodayLe, p)) == Filter(TodaysTodosRaw(todos, todayStr), EquivTo(TodayLe, p)))
  {
    var raw := TodaysTodosRaw(todos, todayStr);
    var r := TodaysTodos(todos, todayStr);
    TodayLeTotalPreorder();
    SortByCorrect(raw, TodayLe);
    forall t: TodoItem ensures multiset(r)[t] == if t.date == todayStr then multiset(todos)[t] else 0 {
      FilterMultiset(todos, DatedOn(todayStr), t);
    }
    forall i, j | 0 <= i < j < |r| ensures TodayLe(r[i], r[j]) {
    }
    forall i, j | 0 <= i < j < |r| && r[i].completed == r[j].completed
                  && TruthyBool(r[i].isStarred) == TruthyBool(r[j].isStarred) && TruthyStr(r[j].time)
      ensures TruthyStr(r[i].time) && LexLe(r[i].time.value, r[j].time.value)
    {
      TimesLe(r[i], r[j]);
    }
  }

  // ---------- counters ----------

  datatype Stats = Stats(total: nat, completed: nat, uncompleted: nat, starred: nat)

  function IsDone(t: TodoItem): bool { t.completed }
  function IsPending(t: TodoItem): bool { !t.completed }
  function IsStarred(t: TodoItem): bool { TruthyBool(t.isStarred) }

  /** `stats`: counters over today's tasks. */
  function ComputeStats(todos: seq<TodoItem>, todayStr: string): Stats {
    var raw := TodaysTodosRaw(todos, todayStr);
    Stats(|raw|, |Filter(raw, IsDone)|, |Filter(raw, IsPending)|, |Filter(raw, IsStarred)|)
  }

  /** Every task of today is either completed or not, and the starred ones are among them. */
  lemma StatsConsistent(todos: seq<TodoItem>, todayStr: string)
    ensures var s := ComputeStats(todos, todayStr);
            s.total == s.completed + s.uncompleted && s.starred <= s.total
            && s.total == |TodaysTodos(todos, todayStr)|
  {
    var raw := TodaysTodosRaw(todos, todayStr);
    FilterPartition(raw, IsDone, IsPending);
    assert |multiset(TodaysTodos(todos, todayStr))| == |multiset(raw)|;
  }

  // ---------- future list and vault ----------

  function DatedAfter(date: string): TodoItem -> bool {
    (t: TodoItem) => LexLt(date, t.date)
  }

  /** `a.date.localeCompare(b.date) <= 0`. */
  predicate DateLe(a: TodoItem, b: TodoItem) {
    LexCompare(a.date, b.date) <= 0
  }

  lemma DateLeTotalPreorder()
    ensures IsTotalPreorder(DateLe)
  {
    LexLeTotalOrder();
    assert forall a, b :: DateLe(a, b) == LexLe(a.date, b.date);
  }

  /** `futureTodos`: the tasks dated after today (string order), by ascending date. */
  function FutureTodos(todos: seq<TodoItem>, todayStr: string): seq<TodoItem> {
    SortBy(Filter(todos, DatedAfter(todayStr)), DateLe)
  }

  /** The future list holds exactly the later-dated tasks, in ascending date order, ties in list order. */
  lemma FutureTodosOrder(todos: seq<TodoItem>, todayStr: string)
    ensures var r := FutureTodos(todos, todayStr);
            && (forall t :: multiset(r)[t] == if LexLt(todayStr, t.date) then multiset(todos)[t] else 0)
            && (forall i, j :: 0 <= i < j < |r| ==> LexLe(r[i].date, r[j].date))
            && (forall p :: Filter(r, EquivTo(DateLe, p)) == Filter(Filter(todos, DatedAfter(todayStr)), EquivTo(DateLe, p)))
  {
    var f := Filter(todos, DatedAfter(todayStr));
    DateLeTotalPreorder();
    SortByCorrect(f, DateLe);
    forall t ensures multiset(FutureTodos(todos, todayStr))[t] == if LexLt(todayStr, t.date) then multiset(todos)[t] else 0 {
      FilterMultiset(todos, DatedAfter(todayStr), t);
    }
  }

  predicate InVault(t: TodoItem) {
    TruthyStr(t.reward) && !TruthyBool(t.rewardClaimed)
  }

  /** `completedTodos`. */
  function CompletedTodos(todos: seq<TodoItem>): seq<TodoItem> {
    Filter(todos, IsDone)
  }

  /** `vaultItems`: completed tasks with a reward that is not yet claimed. */
  function VaultItems(todos: seq<TodoItem>): seq<TodoItem> {
    Filter(CompletedTodos(todos), InVault)
  }

  lemma VaultMembership(todos: seq<TodoItem>, t: TodoItem)
    ensures t in VaultItems(todos) <==>
              t in todos && t.completed && TruthyStr(t.reward) && !TruthyBool(t.rewardClaimed)
  {
  }

  // ---------- task handlers ----------

  function Claim(id: string): TodoItem -> TodoItem {
    (t: TodoItem) => if t.id == id then t.(rewardClaimed := Some(true)) else t
  }

  /** `handleClaimReward(id)`. */
  function ClaimReward(todos: seq<TodoItem>, id: string): seq<TodoItem> {
    Map(todos, Claim(id))
  }

  /** After claiming, no task with that id is in the vault; every other vault entry stays. */
  lemma ClaimRewardLeavesVault(todos: seq<TodoItem>, id: string)
    ensures forall t :: t in VaultItems(ClaimReward(todos, id)) ==> t.id != id
    ensures forall t: TodoItem :: t.id != id ==> (t in VaultItems(ClaimReward(todos, id)) <==> t in VaultItems(todos))
  {
    var r := ClaimReward(todos, id);
    forall t: TodoItem | t.id != id && t in todos ensures t in r {
      var i :| 0 <= i < |todos| && todos[i] == t;
      assert r[i] == t;
    }
  }

  function FlipComplete(id: string): TodoItem -> TodoItem {
    (t: TodoItem) => if t.id == id then t.(completed := !t.completed) else t
  }

  /** `toggleComplete(id)`. */
  function ToggleComplete(todos: seq<TodoItem>, id: string): seq<TodoItem> {
    Map(todos, FlipComplete(id))
  }

  /** Only the tasks with that id change, and only in `completed`; toggling twice is the identity. */
  lemma ToggleCompleteEffect(todos: seq<TodoItem>, id: string)
    ensures var r := ToggleComplete(todos, id);
            && |r| == |todos|
            && (forall i :: 0 <= i < |todos| ==>
                  if todos[i].id == id then r[i] == todos[i].(completed := !todos[i].completed) else r[i] == todos[i])
            && ToggleComplete(r, id) == todos
  {
    var r := ToggleComplete(todos, id);
    assert ToggleComplete(r, id) == todos;
  }

  function FlipStar(id: string): TodoItem -> TodoItem {
    (t: TodoItem) => if t.id == id then t.(isStarred := Some(!TruthyBool(t.isStarred))) else t
  }

  /** `toggleStar(id)`: `isStarred: !t.isStarred`. */
  function ToggleStar(todos: seq<TodoItem>, id: string): seq<TodoItem> {
    Map(todos, FlipStar(id))
  }

  /**
   * Toggling a star flips its truthiness and nothing else. Toggling twice restores it
   * once the flag is defined; an undefined flag becomes `true`, then `false`.
   */
  lemma ToggleStarEffect(todos: seq<TodoItem>, id: string)
    ensures var r := ToggleStar(todos, id);
            && |r| == |todos|
            && (forall i :: 0 <= i < |todos| ==>
                  if todos[i].id == id
                  then r[i] == todos[i].(isStarred := Some(!TruthyBool(todos[i].isStarred)))
                  else r[i] == todos[i])
    ensures var r2 := ToggleStar(ToggleStar(todos, id), id);
            && |r2| == |todos|
            && (forall i :: 0 <= i < |todos| ==>
                  if todos[i].id == id then r2[i] == todos[i].(isStarred := Some(TruthyBool(todos[i].isStarred)))
                  else r2[i] == todos[i])
    ensures (forall i :: 0 <= i < |todos| && todos[i].id == id ==> todos[i].isStarred.Some?)
            ==> ToggleStar(ToggleStar(todos, id), id) == todos
  {
    var r2 := ToggleStar(ToggleStar(todos, id), id);
    if forall i :: 0 <= i < |todos| && todos[i].id == id ==> todos[i].isStarred.Some? {
      forall i | 0 <= i < |todos| ensures r2[i] == todos[i] {
        if todos[i].id == id {
          assert TruthyBool(todos[i].isStarred) == todos[i].isStarred.value;
        }
      }
    }
  }

  function TodoIdIsNot(id: string): TodoItem -> bool {
    (t: TodoItem) => t.id != id
  }

  /** `deleteTodo(id)`. */
  function DeleteTodo(todos: seq<TodoItem>, id: string): seq<TodoItem> {
    Filter(todos, TodoIdIsNot(id))
  }

  /** Deletion removes every task with that id, keeps each other task as often as before, and is a no-op for an unused id. */
  lemma DeleteTodoEffect(todos: seq<TodoItem>, id: string)
    ensures forall t :: multiset(DeleteTodo(todos, id))[t] == if t.id == id then 0 else multiset(todos)[t]
    ensures (forall i :: 0 <= i < |todos| ==> todos[i].id != id) ==> DeleteTodo(todos, id) == todos
  {
    forall t ensures multiset(DeleteTodo(todos, id))[t] == if t.id == id then 0 else multiset(todos)[t] {
      FilterMultiset(todos, TodoIdIsNot(id), t);
    }
    if forall i :: 0 <= i < |todos| ==> todos[i].id != id {
      FilterAll(todos, TodoIdIsNot(id));
    }
  }

  /**
   * `filter` keeps the surviving tasks in their order: deleting from a joined list is
   * deleting from each part, and a single task survives exactly when its id differs.
   */
  lemma DeleteTodoKeepsOrder(a: seq<TodoItem>, b: seq<TodoItem>, t: TodoItem, id: string)
    ensures DeleteTodo(a + b, id) == DeleteTodo(a, id) + DeleteTodo(b, id)
    ensures DeleteTodo([t], id) == if t.id == id then [] else [t]
  {
    FilterConcat(a, b, TodoIdIsNot(id));
    FilterSnoc([], t, TodoIdIsNot(id));
  }

  /** `x.trim() || undefined`. */
  function RewardValue(reward: string): Option<string> {
    if Trim(reward) == "" then None else Some(Trim(reward))
  }

  /** `x || undefined`. */
  function TimeValue(time: string): Option<string> {
    if time == "" then None else Some(time)
  }

  function Rewrite(id: string, text: string, date: string, time: Option<string>, reward: Option<string>)
    : TodoItem -> TodoItem
  {
    (t: TodoItem) => if t.id == id then t.(text := text, date := date, time := time, reward := reward) else t
  }

  /**
   * `handleSaveTask`: a blank text saves nothing; with a (truthy) id being edited, that
   * task's text, date, time and reward are rewritten; otherwise a new pending, unstarred,
   * unclaimed task is put first. The text itself is stored untrimmed.
   */
  function HandleSaveTask(todos: seq<TodoItem>, editingId: Option<string>, newId: string,
                          text: string, reward: string, date: string, time: string): seq<TodoItem>
  {
    if IsBlank(text) then todos
    else if TruthyStr(editingId) then
      Map(todos, Rewrite(editingId.value, text, date, TimeValue(time), RewardValue(reward)))
    else
      [TodoItem(newId, text, false, date, TimeValue(time), RewardValue(reward), Some(false), None, Some(false))] + todos
  }

  /** A stored reward is the trimmed reward and never blank; a stored time is never empty. */
  lemma SavedFieldsNormalised(reward: string, time: string)
    ensures RewardValue(reward) == None <==> IsBlank(reward)
    ensures RewardValue(reward).Some? ==> RewardValue(reward).value == Trim(reward) && RewardValue(reward).value != ""
    ensures TimeValue(time) == None <==> time == ""
  {
  }

  /** Saving a task: blank text is ignored, a new task goes first, an edit touches four fields of one id. */
  lemma SaveTaskEffect(todos: seq<TodoItem>, editingId: Option<string>, newId: string,
                       text: string, reward: string, date: string, time: string)
    ensures var r := HandleSaveTask(todos, editingId, newId, text, reward, date, time);
            && (IsBlank(text) ==> r == todos)
            && (!IsBlank(text) && !TruthyStr(editingId) ==>
                  |r| == |todos| + 1 && r[1..] == todos
                  && r[0] == TodoItem(newId, text, false, date, TimeValue(time), RewardValue(reward),
                                      Some(false), None, Some(false)))
            && (!IsBlank(text) && TruthyStr(editingId) ==>
                  |r| == |todos|
                  && forall i :: 0 <= i < |todos| ==>
                       && r[i].id == todos[i].id && r[i].completed == todos[i].completed
                       && r[i].isStarred == todos[i].isStarred && r[i].rewardClaimed == todos[i].rewardClaimed
                       && r[i].points == todos[i].points
                       && (todos[i].id != editingId.value ==> r[i] == todos[i])
                       && (todos[i].id == editingId.value ==>
                             r[i].text == text && r[i].date == date
                             && r[i].time == TimeValue(time) && r[i].reward == RewardValue(reward)))
  {
  }

  // ---------- notes ----------

  function Reword(id: string, content: string, date: string): NoteItem -> NoteItem {
    (n: NoteItem) => if n.id == id then n.(content := content, date := date) else n
  }

  /**
   * `handleSaveNote`: a blank note saves nothing; an edited note gets the new content and
   * timestamp; otherwise a new note is put first.
   */
  function HandleSaveNote(notes: seq<NoteItem>, editingId: Option<string>, newId: string,
                          content: string, now: string, color: string): seq<NoteItem>
  {
    if IsBlank(content) then notes
    else if TruthyStr(editingId) then Map(notes, Reword(editingId.value, content, now))
    else [NoteItem(newId, content, now, color)] + notes
  }

  function NoteIdIsNot(id: string): NoteItem -> bool {
    (n: NoteItem) => n.id != id
  }

  /** `deleteNote(id)`. */
  function DeleteNote(notes: seq<NoteItem>, id: string): seq<NoteItem> {
    Filter(notes, NoteIdIsNot(id))
  }

  lemma SaveNoteEffect(notes: seq<NoteItem>, editingId: Option<string>, newId: string,
                       content: string, now: string, color: string)
    ensures var r := HandleSaveNote(notes, editingId, newId, content, now, color);
            && (IsBlank(content) ==> r == notes)
            && (!IsBlank(content) && !TruthyStr(editingId) ==>
                  |r| == |notes| + 1 && r[1..] == notes && r[0] == NoteItem(newId, content, now, color))
            && (!IsBlank(content) && TruthyStr(editingId) ==>
                  |r| == |notes|
                  && forall i :: 0 <= i < |notes| ==>
                       if notes[i].id == editingId.value
                       then r[i] == NoteItem(notes[i].id, content, now, notes[i].color)
                       else r[i] == notes[i])
  {
  }

  lemma DeleteNoteEffect(notes: seq<NoteItem>, id: string)
    ensures forall n :: multiset(DeleteNote(notes, id))[n] == if n.id == id then 0 else multiset(notes)[n]
    ensures (forall i :: 0 <= i < |notes| ==> notes[i].id != id) ==> DeleteNote(notes, id) == notes
  {
    forall n ensures multiset(DeleteNote(notes, id))[n] == if n.id == id then 0 else multiset(notes)[n] {
      FilterMultiset(notes, NoteIdIsNot(id), n);
    }
    if forall i :: 0 <= i < |notes| ==> notes[i].id != id {
      FilterAll(notes, NoteIdIsNot(id));
    }
  }

  /** The surviving notes keep their order: deletion splits over a join and keeps exactly the notes with another id. */
  lemma DeleteNoteKeepsOrder(a: seq<NoteItem>, b: seq<NoteItem>, n: NoteItem, id: string)
    ensures DeleteNote(a + b, id) == DeleteNote(a, id) + DeleteNote(b, id)
    ensures DeleteNote([n], id) == if n.id == id then [] else [n]
  {
    FilterConcat(a, b, NoteIdIsNot(id));
    FilterSnoc([], n, NoteIdIsNot(id));
  }

}
