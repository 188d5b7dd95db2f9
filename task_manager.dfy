/** The list logic of the task-manager window (work/tasks/task_manager.py):
    the shared task list, shown with duplicates collapsed into counts, and
    the per-agent banned- and current-order lists, each entry with a remove
    button. The Tk widgets and the file watcher are not modelled; each
    `save_json` call is recorded in a write log instead of touching a file. */
module TaskManager {
  import opened Wrappers
  import opened JsonRecords
  import opened Lists

  /** A task record `{"role": ..., "code": ...}`. */
  datatype Task = Task(role: string, code: string)

  /** A file as `load_json` finds it: absent, or present with its text and
      with what `json.loads` makes of that text (None when it raises). */
  datatype DiskFile<T> = Absent | Present(text: string, decoded: Option<T>)

  /** Python's `str.isspace`, the characters `str.strip` removes. */
  predicate IsSpace(c: char)
  {
    var n := c as int;
    n == 0x20 || 0x09 <= n <= 0x0D || 0x1C <= n <= 0x1F || n == 0x85 || n == 0xA0 ||
    n == 0x1680 || 0x2000 <= n <= 0x200A || n == 0x2028 || n == 0x2029 ||
    n == 0x202F || n == 0x205F || n == 0x3000
  }

  /** `not data.strip()`. */
  predicate IsBlank(s: string)
  {
    forall i | 0 <= i < |s| :: IsSpace(s[i])
  }

  /** `load_json`: the decoded list, falling back to the empty list when
      the file is missing, blank or not valid JSON. */
  function LoadJson<T>(f: DiskFile<seq<T>>): (r: seq<T>)
    ensures r == [] || (f.Present? && !IsBlank(f.text) && f.decoded == Some(r))
    ensures f.Present? && !IsBlank(f.text) && f.decoded.Some? ==> r == f.decoded.value
  {
    match f
    case Absent => []
    case Present(text, decoded) => if IsBlank(text) then [] else decoded.GetOr([])
  }

  /** The file names of the per-agent order lists (`BANNED_ORDER_FILES`,
      `CURRENT_ORDER_FILES`). */
  const BANNED_ORDER_FILES: seq<string> :=
    ["banned_orders_baz.json", "banned_orders_baz1.json", "banned_orders_baz2.json",
     "banned_orders_baz3.json", "banned_orders_baz4.json"]
  const CURRENT_ORDER_FILES: seq<string> :=
    ["current_orders_baz.json", "current_orders_baz1.json", "current_orders_baz2.json",
     "current_orders_baz3.json", "current_orders_baz4.json"]

  /** One list per file name, each read with `load_json`. */
  function LoadAll(names: seq<string>, disk: string -> DiskFile<seq<Entry>>): (m: map<string, seq<Entry>>)
    ensures forall f :: f in m <==> f in names
    ensures forall f | f in m :: m[f] == LoadJson(disk(f))
  {
    map f | f in names :: LoadJson(disk(f))
  }

  // ---------------------------------------------------------------------
  // The displayed key "role - code" and its split back into two fields

  const SEPARATOR: string := " - "

  /** The key a row of the task list shows (`f"{role} - {code}"`). */
  function Key(t: Task): string
  {
    t.role + SEPARATOR + t.code
  }

  predicate OccursAt(s: string, sep: string, i: int)
  {
    0 <= i && i + |sep| <= |s| && s[i..i + |sep|] == sep
  }

  predicate Contains(s: string, sep: string)
  {
    exists i | 0 <= i <= |s| :: OccursAt(s, sep, i)
  }

  /** The first occurrence of `sep` at or after position `i`. */
  function FindFrom(s: string, sep: string, i: nat): (r: Option<nat>)
    requires |sep| > 0
    ensures r.Some? ==> i <= r.value && OccursAt(s, sep, r.value)
    ensures r.Some? ==> forall j | i <= j < r.value :: !OccursAt(s, sep, j)
    ensures r.None? ==> forall j | i <= j :: !OccursAt(s, sep, j)
    decreases |s| - i
  {
    if i + |sep| > |s| then None
    else if s[i..i + |sep|] == sep then Some(i)
    else FindFrom(s, sep, i + 1)
  }

  /** Python's `s.split(sep)`: the pieces between the non-overlapping
      occurrences of `sep`, found from left to right. */
  function Split(s: string, sep: string): (parts: seq<string>)
    requires |sep| > 0
    ensures |parts| >= 1
    decreases |s|
  {
    match FindFrom(s, sep, 0)
    case None => [s]
    case Some(k) => [s[..k]] + Split(s[k + |sep|..], sep)
  }

  /** `sep.join(parts)`. */
  function Join(parts: seq<string>, sep: string): string
    requires |parts| >= 1
  {
    if |parts| == 1 then parts[0] else parts[0] + sep + Join(parts[1..], sep)
  }

  /** Splitting loses nothing: joining the pieces gives back the string. */
  lemma {:induction false} SplitJoin(s: string, sep: string)
    requires |sep| > 0
    ensures Join(Split(s, sep), sep) == s
    decreases |s|
  {
    var found := FindFrom(s, sep, 0);
    if found.Some? {
      var k := found.value;
      var rest := s[k + |sep|..];
      var tail := Split(rest, sep);
      assert Split(s, sep) == [s[..k]] + tail;
      SplitJoin(rest, sep);
      assert Join([s[..k]] + tail, sep) == s[..k] + sep + Join(tail, sep) by {
        assert ([s[..k]] + tail)[1..] == tail;
      }
      assert s[k..k + |sep|] == sep;
      assert s == s[..k] + s[k..k + |sep|] + rest;
    }
  }

  /** The key of a task splits back into its role and code when neither
      field contains the separator and the role does not end in " -" (the
      end of such a role and the separator's leading space would form an
      earlier separator). */
  lemma KeySplitsBack(role: string, code: string)
    requires !Contains(role, SEPARATOR) && !Contains(code, SEPARATOR)
    requires !(|role| >= 2 && role[|role| - 2..] == " -")
    ensures Split(Key(Task(role, code)), SEPARATOR) == [role, code]
  {
    var key := Key(Task(role, code));
    var n := |role|;
    assert key[..n] == role;
    assert key[n..n + 3] == SEPARATOR;
    assert key[n + 3..] == code;
    forall j | 0 <= j < n
      ensures !OccursAt(key, SEPARATOR, j)
    {
      if j + 3 <= n {
        assert key[j..j + 3] == role[j..j + 3];
        assert !OccursAt(role, SEPARATOR, j);
      } else if j == n - 1 {
        assert key[j..j + 3][1] == key[n] == ' ';
      } else {
        assert key[j..j + 3][0] == role[n - 2] && key[j..j + 3][1] == role[n - 1];
        assert role[n - 2..] == [role[n - 2], role[n - 1]];
      }
    }
    assert OccursAt(key, SEPARATOR, n);
    assert FindFrom(key, SEPARATOR, 0) == Some(n);
    assert FindFrom(code, SEPARATOR, 0).None?;
  }

  /** Without the condition on the role's end the key no longer splits back:
      role "a -" and code "b" (neither contains " - ") give the key
      "a - - b", which splits into "a" and "- b". */
  lemma KeyOfRoleEndingInDashSplitsElsewhere()
    ensures !Contains("a -", SEPARATOR) && !Contains("b", SEPARATOR)
    ensures Split(Key(Task("a -", "b")), SEPARATOR) == ["a", "- b"]
  {
    var key := Key(Task("a -", "b"));
    assert key == "a - - b";
    assert OccursAt(key, SEPARATOR, 1);
    assert key[0..3][0] == 'a';
    assert !OccursAt(key, SEPARATOR, 0);
    assert FindFrom(key, SEPARATOR, 0) == Some(1);
    assert key[..1] == "a" && key[4..] == "- b";
    assert "- b"[0..3][0] == '-';
    assert FindFrom("- b", SEPARATOR, 0).None?;
    assert "a -"[0..3][0] == 'a';
  }

  // ---------------------------------------------------------------------
  // remove_task: the list comprehension that drops a role/code pair

  /** `[t for t in tasks if not (t["role"] == role and t["code"] == code)]`. */
  function Without(tasks: seq<Task>, role: string, code: string): (r: seq<Task>)
    ensures |r| <= |tasks|
    ensures forall t | t in r :: t in tasks && !(t.role == role && t.code == code)
  {
    if |tasks| == 0 then []
    else
      (if tasks[0].role == role && tasks[0].code == code then [] else [tasks[0]])
      + Without(tasks[1..], role, code)
  }

  /** Every other task is kept as often as it occurs. */
  lemma {:induction false} WithoutKeepsOthers(tasks: seq<Task>, role: string, code: string, t: Task)
    requires !(t.role == role && t.code == code)
    ensures multiset(Without(tasks, role, code))[t] == multiset(tasks)[t]
  {
    if |tasks| > 0 {
      assert tasks == [tasks[0]] + tasks[1..];
      WithoutKeepsOthers(tasks[1..], role, code, t);
    }
  }

  /** The filter keeps the order of what it keeps: filtering a concatenation
      concatenates the filtered parts. */
  lemma {:induction false} WithoutDistributes(a: seq<Task>, b: seq<Task>, role: string, code: string)
    ensures Without(a + b, role, code) == Without(a, role, code) + Without(b, role, code)
  {
    if |a| > 0 {
      WithoutDistributes(a[1..], b, role, code);
      assert (a + b)[0] == a[0];
      assert (a + b)[1..] == a[1..] + b;
    } else {
      assert a + b == b;
    }
  }

  /** The remove button of the row for (role, code) removes every task with
      that role and code and keeps all others, when the key splits back. */
  lemma RemoveButtonRemovesItsRow(tasks: seq<Task>, role: string, code: string)
    requires !Contains(role, SEPARATOR) && !Contains(code, SEPARATOR)
    requires !(|role| >= 2 && role[|role| - 2..] == " -")
    ensures var parts := Split(Key(Task(role, code)), SEPARATOR);
            |parts| == 2 && Without(tasks, parts[0], parts[1]) == Without(tasks, role, code)
  {
    KeySplitsBack(role, code);
  }

  // ---------------------------------------------------------------------
  // render_tasks: collapsing duplicate keys into counts

  function Keys(tasks: seq<Task>): (ks: seq<string>)
    ensures |ks| == |tasks|
    ensures forall i | 0 <= i < |tasks| :: ks[i] == Key(tasks[i])
  {
    seq(|tasks|, i requires 0 <= i < |tasks| => Key(tasks[i]))
  }

  /** How often `k` occurs in `ks`. */
  function Occurrences(ks: seq<string>, k: string): nat
  {
    if |ks| == 0 then 0
    else Occurrences(ks[..|ks| - 1], k) + (if ks[|ks| - 1] == k then 1 else 0)
  }

  /** The distinct elements of `ks` in order of first occurrence: the key
      order of a dict filled from `ks`. */
  function Distinct(ks: seq<string>): (r: seq<string>)
    ensures forall k :: k in r <==> k in ks
    ensures forall i, j | 0 <= i < j < |r| :: r[i] != r[j]
  {
    if |ks| == 0 then []
    else
      assert ks == ks[..|ks| - 1] + [ks[|ks| - 1]];
      var d := Distinct(ks[..|ks| - 1]);
      if ks[|ks| - 1] in d then d else d + [ks[|ks| - 1]]
  }

  /** The sum of the counts of `keys` in `ks`. */
  function TotalCount(keys: seq<string>, ks: seq<string>): nat
  {
    if |keys| == 0 then 0
    else TotalCount(keys[..|keys| - 1], ks) + Occurrences(ks, keys[|keys| - 1])
  }

  lemma {:induction false} OccurrencesOfAbsent(ks: seq<string>, k: string)
    requires k !in ks
    ensures Occurrences(ks, k) == 0
  {
    if |ks| > 0 {
      assert ks == ks[..|ks| - 1] + [ks[|ks| - 1]];
      OccurrencesOfAbsent(ks[..|ks| - 1], k);
    }
  }

  lemma OccurrencesAppend(ks: seq<string>, x: string, k: string)
    ensures Occurrences(ks + [x], k) == Occurrences(ks, k) + (if x == k then 1 else 0)
  {
    assert (ks + [x])[..|ks|] == ks;
  }

  lemma {:induction false} TotalCountAppend(keys: seq<string>, ks: seq<string>, x: string)
    requires forall i, j | 0 <= i < j < |keys| :: keys[i] != keys[j]
    ensures TotalCount(keys, ks + [x]) == TotalCount(keys, ks) + (if x in keys then 1 else 0)
  {
    if |keys| > 0 {
      var front, last := keys[..|keys| - 1], keys[|keys| - 1];
      assert keys == front + [last];
      TotalCountAppend(front, ks, x);
      OccurrencesAppend(ks, x, last);
      assert last !in front;
    }
  }

  /** The counts shown in the task list add up to the number of tasks. */
  lemma {:induction false} CountsSumToLength(ks: seq<string>)
    ensures TotalCount(Distinct(ks), ks) == |ks|
  {
    if |ks| > 0 {
      var front, x := ks[..|ks| - 1], ks[|ks| - 1];
      assert ks == front + [x];
      var d := Distinct(front);
      CountsSumToLength(front);
      TotalCountAppend(d, front, x);
      if x !in d {
        assert (d + [x])[..|d|] == d;
        OccurrencesOfAbsent(front, x);
        OccurrencesAppend(front, x, x);
      }
    }
  }

  /** One step of the counting loop: adding `key` to the dict that counts
      `prefix` gives the dict that counts `prefix + [key]`. */
  lemma CountStep(prefix: seq<string>, key: string, whole: seq<string>,
                  keys: seq<string>, counts: map<string, nat>,
                  keys': seq<string>, counts': map<string, nat>)
    requires whole == prefix + [key]
    requires keys == Distinct(prefix)
    requires forall k :: k in counts <==> k in keys
    requires forall k | k in counts :: counts[k] == Occurrences(prefix, k)
    requires keys' == if key in counts then keys else keys + [key]
    requires counts' == counts[key := if key in counts then counts[key] + 1 else 1]
    ensures keys' == Distinct(whole)
    ensures forall k :: k in counts' <==> k in keys'
    ensures forall k | k in counts' :: counts'[k] == Occurrences(whole, k)
  {
    assert whole[..|prefix|] == prefix;
    if key !in counts {
      OccurrencesOfAbsent(prefix, key);
    }
    forall k | k in counts'
      ensures counts'[k] == Occurrences(whole, k)
    {
      OccurrencesAppend(prefix, key, k);
    }
  }

  /** The decimal digits of `n`, as `str(n)` writes them. */
  function Decimal(n: nat): (s: string)
    ensures |s| >= 1
  {
    if n < 10 then [('0' as int + n) as char]
    else Decimal(n / 10) + [('0' as int + n % 10) as char]
  }

  /** The number a string of decimal digits denotes. */
  function DigitsValue(s: string): int
  {
    if |s| == 0 then 0 else DigitsValue(s[..|s| - 1]) * 10 + (s[|s| - 1] as int - '0' as int)
  }

  /** `Decimal` writes `str(n)`: decimal digits without a leading zero,
      which read back as `n`. */
  lemma {:induction false} DecimalRoundTrip(n: nat)
    ensures forall i | 0 <= i < |Decimal(n)| :: '0' <= Decimal(n)[i] <= '9'
    ensures |Decimal(n)| > 1 ==> Decimal(n)[0] != '0'
    ensures DigitsValue(Decimal(n)) == n
  {
    if n >= 10 {
      DecimalRoundTrip(n / 10);
      var front := Decimal(n / 10);
      var last := ('0' as int + n % 10) as char;
      assert Decimal(n) == front + [last];
      assert (front + [last])[..|front|] == front;
      assert (front + [last])[0] == front[0];
    }
  }

  /** The text of one row: the key, followed by " (n)" only when it stands
      for n > 1 tasks. */
  function Label(key: string, count: nat): (text: string)
    ensures text == key <==> count <= 1
    ensures |text| >= |key| && text[..|key|] == key
  {
    if count > 1 then key + " (" + Decimal(count) + ")" else key
  }

  // ---------------------------------------------------------------------
  // remove_banned_order / remove_current_order

  /** The first position holding a value Python considers equal to `x`. */
  function IndexOfEq(items: seq<Entry>, x: Entry): (r: Option<nat>)
    ensures r.Some? ==> r.value < |items| && PyEq(items[r.value], x)
    ensures r.Some? ==> forall j | 0 <= j < r.value :: !PyEq(items[j], x)
    ensures r.None? ==> forall j | 0 <= j < |items| :: !PyEq(items[j], x)
  {
    if |items| == 0 then None
    else if PyEq(items[0], x) then Some(0)
    else match IndexOfEq(items[1..], x)
      case None => None
      case Some(k) => Some(k + 1)
  }

  /** The text forms of a list's entries, position by position. */
  function Forms(items: seq<Entry>): (texts: seq<string>)
    ensures |texts| == |items|
    ensures forall j | 0 <= j < |items| :: texts[j] == Form(items[j])
  {
    seq(|items|, j requires 0 <= j < |items| => Form(items[j]))
  }

  /** `list.remove(x)`: drops the first element equal to `x`; None stands
      for the `ValueError` raised when there is none. */
  function ListRemove(items: seq<Entry>, x: Entry): (r: Option<seq<Entry>>)
    ensures r.None? <==> forall j | 0 <= j < |items| :: !PyEq(items[j], x)
  {
    match IndexOfEq(items, x)
    case None => None
    case Some(k) => Some(DropAt(items, k))
  }

  /** What a remove button does to its list: `list.remove(order)`, and when
      that raises, removal of the first entry whose text form matches the
      order's (through `list.remove` again); None when nothing matches. */
  function OrderRemoval(orders: seq<Entry>, order: Entry): (r: Option<seq<Entry>>)
    ensures r.None? <==>
              forall j | 0 <= j < |orders| :: !PyEq(orders[j], order) && Form(orders[j]) != Form(order)
    ensures r.Some? ==> |r.value| == |orders| - 1 && multiset(r.value) <= multiset(orders)
  {
    match IndexOfEq(orders, order)
    case Some(k) => Some(DropAt(orders, k))
    case None =>
      match IndexOf(Forms(orders), Form(order))
      case None => None
      case Some(j) => ListRemove(orders, orders[j])
  }

  /** `IndexOfEq` finds the first equal entry. */
  lemma IndexOfEqIsFirst(items: seq<Entry>, x: Entry, k: nat)
    requires k < |items| && PyEq(items[k], x)
    requires forall j | 0 <= j < k :: !PyEq(items[j], x)
    ensures IndexOfEq(items, x) == Some(k)
  {
  }

  /** When some entry equals the order, exactly the first such entry goes. */
  lemma OrderRemovalTakesFirstEqual(orders: seq<Entry>, order: Entry, k: nat)
    requires k < |orders| && PyEq(orders[k], order)
    requires forall j | 0 <= j < k :: !PyEq(orders[j], order)
    ensures OrderRemoval(orders, order) == Some(orders[..k] + orders[k + 1..])
  {
    IndexOfEqIsFirst(orders, order, k);
    assert DropAt(orders, k) == orders[..k] + orders[k + 1..];
  }

  /** When no entry equals the order but some entry's text form matches,
      the first entry equal to the first such match goes: that match itself,
      or an earlier entry equal to it. */
  lemma OrderRemovalFallsBackToForm(orders: seq<Entry>, order: Entry, j: nat, k: nat)
    requires forall i | 0 <= i < |orders| :: !PyEq(orders[i], order)
    requires j < |orders| && Form(orders[j]) == Form(order)
    requires forall i | 0 <= i < j :: Form(orders[i]) != Form(order)
    requires k < |orders| && PyEq(orders[k], orders[j])
    requires forall i | 0 <= i < k :: !PyEq(orders[i], orders[j])
    ensures k <= j
    ensures OrderRemoval(orders, order) == Some(orders[..k] + orders[k + 1..])
  {
    assert PyEq(orders[j], orders[j]);
    IndexOfIsFirst(Forms(orders), Form(order), j);
    IndexOfEqIsFirst(orders, orders[j], k);
    assert IndexOfEq(orders, order).None?;
    assert DropAt(orders, k) == orders[..k] + orders[k + 1..];
  }

  /** The fallback finds its entry at `i`: what goes is what `list.remove`
      of that entry takes. */
  lemma FallbackRemoval(orders: seq<Entry>, order: Entry, i: nat)
    requires IndexOfEq(orders, order).None?
    requires i < |orders| && Form(orders[i]) == Form(order)
    requires forall j | 0 <= j < i :: Form(orders[j]) != Form(order)
    ensures ListRemove(orders, orders[i]).Some?
    ensures OrderRemoval(orders, order) == ListRemove(orders, orders[i])
  {
    assert PyEq(orders[i], orders[i]);
    IndexOfIsFirst(Forms(orders), Form(order), i);
  }

  /** The fallback loop `for item in ...: if item_str == order_str: ...
      break`: the first position whose text form is `text`. */
  method FindByForm(orders: seq<Entry>, text: string) returns (found: Option<nat>)
    ensures found == IndexOf(Forms(orders), text)
  {
    ghost var texts := Forms(orders);
    var i := 0;
    while i < |orders|
      invariant 0 <= i <= |orders|
      invariant forall j | 0 <= j < i :: texts[j] != text
    {
      var itemText := Form(orders[i]);
      assert texts[i] == itemText;
      if itemText == text {
        IndexOfIsFirst(texts, text, i);
        return Some(i);
      }
      i := i + 1;
    }
    return None;
  }

  /** The body shared by `remove_banned_order` and `remove_current_order`:
      the `try`/`except ValueError` around `list.remove`, then the fallback
      on the text forms. */
  method RemoveOrder(orders: seq<Entry>, order: Entry) returns (remaining: seq<Entry>, removed: bool)
    ensures removed == OrderRemoval(orders, order).Some?
    ensures remaining == OrderRemoval(orders, order).GetOr(orders)
  {
    var attempt := ListRemove(orders, order);
    if attempt.Some? {
      return attempt.value, true;
    }
    var found := FindByForm(orders, Form(order));
    if found.None? {
      return orders, false;
    }
    FallbackRemoval(orders, order, found.value);
    var again := ListRemove(orders, orders[found.value]);
    remaining, removed := again.value, true;
  }

  /** The counting loop of `render_tasks`: a dict from key to count,
      filled in order, so its keys come in order of first occurrence. */
  method CountKeys(ks: seq<string>) returns (keys: seq<string>, counts: map<string, nat>)
    ensures keys == Distinct(ks)
    ensures forall k :: k in counts <==> k in keys
    ensures forall k | k in counts :: counts[k] == Occurrences(ks, k)
  {
    keys, counts := [], map[];
    var i := 0;
    while i < |ks|
      invariant 0 <= i <= |ks|
      invariant keys == Distinct(ks[..i])
      invariant forall k :: k in counts <==> k in keys
      invariant forall k | k in counts :: counts[k] == Occurrences(ks[..i], k)
    {
      var key := ks[i];
      var keys', counts' := keys, counts[key := 1];
      if key in counts {
        counts' := counts[key := counts[key] + 1];
      } else {
        keys' := keys + [key];
      }
      assert ks[..i + 1] == ks[..i] + [key];
      CountStep(ks[..i], key, ks[..i + 1], keys, counts, keys', counts');
      keys, counts := keys', counts';
      i := i + 1;
    }
    assert ks[..|ks|] == ks;
  }

  /** The row texts of `render_tasks`, one per key, in key order. */
  method RowLabels(keys: seq<string>, counts: map<string, nat>) returns (labels: seq<string>)
    requires forall k | k in keys :: k in counts
    ensures |labels| == |keys|
    ensures forall i | 0 <= i < |keys| :: labels[i] == Label(keys[i], counts[keys[i]])
  {
    labels := [];
    var j := 0;
    while j < |keys|
      invariant 0 <= j <= |keys|
      invariant |labels| == j
      invariant forall m | 0 <= m < j :: labels[m] == Label(keys[m], counts[keys[m]])
    {
      labels := labels + [Label(keys[j], counts[keys[j]])];
      j := j + 1;
    }
  }

  // ---------------------------------------------------------------------
  // The application state

  /** One `save_json` call: the task file or an order file rewritten. */
  datatype Write = TasksSaved(tasks: seq<Task>) | OrdersSaved(file: string, orders: seq<Entry>)

  /** `TaskManagerApp` without its widgets. */
  class TaskManagerApp {
    var tasks: seq<Task>
    /** `banned_orders` and `current_orders`: file name to its list. */
    var bannedOrders: map<string, seq<Entry>>
    var currentOrders: map<string, seq<Entry>>
    /** The `save_json` calls made so far, oldest first. */
    var writes: seq<Write>

    /** `__init__`: every list is read with `load_json`; `disk` gives the
        order file of each name. */
    constructor (tasksFile: DiskFile<seq<Task>>, disk: string -> DiskFile<seq<Entry>>)
      ensures tasks == LoadJson(tasksFile)
      ensures bannedOrders == LoadAll(BANNED_ORDER_FILES, disk)
      ensures currentOrders == LoadAll(CURRENT_ORDER_FILES, disk)
      ensures writes == []
    {
      tasks := LoadJson(tasksFile);
      bannedOrders := LoadAll(BANNED_ORDER_FILES, disk);
      currentOrders := LoadAll(CURRENT_ORDER_FILES, disk);
      writes := [];
    }

    /** `refresh_data`: every list is read again; nothing is written. */
    method RefreshData(tasksFile: DiskFile<seq<Task>>, disk: string -> DiskFile<seq<Entry>>)
      modifies this
      ensures tasks == LoadJson(tasksFile)
      ensures bannedOrders == LoadAll(BANNED_ORDER_FILES, disk)
      ensures currentOrders == LoadAll(CURRENT_ORDER_FILES, disk)
      ensures writes == old(writes)
    {
      tasks := LoadJson(tasksFile);
      bannedOrders := LoadAll(BANNED_ORDER_FILES, disk);
      currentOrders := LoadAll(CURRENT_ORDER_FILES, disk);
    }

    /** `add_task`: the new task goes to the top of the list, the others
        move down unchanged, and the task file is saved. */
    method AddTask(role: string, code: string)
      modifies this
      ensures tasks == [Task(role, code)] + old(tasks)
      ensures writes == old(writes) + [TasksSaved(tasks)]
      ensures bannedOrders == old(bannedOrders) && currentOrders == old(currentOrders)
    {
      tasks := [Task(role, code)] + tasks;
      writes := writes + [TasksSaved(tasks)];
    }

    /** `AddTaskDialog.on_add`: a task is added only when both fields are
        filled in. */
    method OnAdd(role: string, code: string) returns (added: bool)
      modifies this
      ensures added == (role != "" && code != "")
      ensures added ==> tasks == [Task(role, code)] + old(tasks) && writes == old(writes) + [TasksSaved(tasks)]
      ensures !added ==> tasks == old(tasks) && writes == old(writes)
      ensures bannedOrders == old(bannedOrders) && currentOrders == old(currentOrders)
    {
      added := role != "" && code != "";
      if added {
        AddTask(role, code);
      }
    }

    /** `remove_task`: the key is split at " - "; unless that gives exactly
        two pieces (the unpacking raises `ValueError` otherwise, and nothing
        changes), every task with that role and code is filtered out and the
        task file is saved. */
    method RemoveTask(key: string) returns (ok: bool)
      modifies this
      ensures ok == (|Split(key, SEPARATOR)| == 2)
      ensures ok ==> tasks == Without(old(tasks), Split(key, SEPARATOR)[0], Split(key, SEPARATOR)[1])
      ensures ok ==> writes == old(writes) + [TasksSaved(tasks)]
      ensures !ok ==> tasks == old(tasks) && writes == old(writes)
      ensures bannedOrders == old(bannedOrders) && currentOrders == old(currentOrders)
    {
      var parts := Split(key, SEPARATOR);
      if |parts| != 2 {
        return false;
      }
      tasks := Without(tasks, parts[0], parts[1]);
      writes := writes + [TasksSaved(tasks)];
      ok := true;
    }

    /** The counting and the row texts of `render_tasks`: a dict from key to
        count, filled in task order (so its keys come in order of first
        occurrence), then one label per key. */
    method RenderTasks() returns (keys: seq<string>, counts: map<string, nat>, labels: seq<string>)
      ensures keys == Distinct(Keys(tasks))
      ensures forall k :: k in counts <==> k in keys
      ensures forall k | k in counts :: counts[k] == Occurrences(Keys(tasks), k)
      ensures |labels| == |keys|
      ensures forall i | 0 <= i < |keys| :: keys[i] in counts && labels[i] == Label(keys[i], counts[keys[i]])
    {
      keys, counts := CountKeys(Keys(tasks));
      labels := RowLabels(keys, counts);
    }

    /** `remove_banned_order`: the list of `file` loses the entry the button
        stands for (see `OrderRemoval`) and is saved, or stays as it is and
        nothing is written when no entry matches. */
    method RemoveBannedOrder(order: Entry, file: string)
      requires file in bannedOrders
      modifies this
      ensures var outcome := OrderRemoval(old(bannedOrders)[file], order);
              && bannedOrders == old(bannedOrders)[file := outcome.GetOr(old(bannedOrders)[file])]
              && writes == old(writes) + (if outcome.Some? then [OrdersSaved(file, outcome.value)] else [])
      ensures tasks == old(tasks) && currentOrders == old(currentOrders)
    {
      var remaining, removed := RemoveOrder(bannedOrders[file], order);
      bannedOrders := bannedOrders[file := remaining];
      if removed {
        writes := writes + [OrdersSaved(file, remaining)];
      }
    }

    /** `remove_current_order`: the same on the current-order lists. */
    method RemoveCurrentOrder(order: Entry, file: string)
      requires file in currentOrders
      modifies this
      ensures var outcome := OrderRemoval(old(currentOrders)[file], order);
              && currentOrders == old(currentOrders)[file := outcome.GetOr(old(currentOrders)[file])]
              && writes == old(writes) + (if outcome.Some? then [OrdersSaved(file, outcome.value)] else [])
      ensures tasks == old(tasks) && bannedOrders == old(bannedOrders)
    {
      var remaining, removed := RemoveOrder(currentOrders[file], order);
      currentOrders := currentOrders[file := remaining];
      if removed {
        writes := writes + [OrdersSaved(file, remaining)];
      }
    }
  }
}
