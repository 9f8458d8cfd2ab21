/** The member list of a rewritten archive: what `computeNewArchiveMembers` makes of the old members and
    of the paths named on the command line, for regular archives. */
module ArchiveMembers {

  datatype Operation = Delete | Move | ReplaceOrInsert | QuickAppend

  datatype Child = Child(name: string, data: seq<int>)

  /** A member of the new archive: an old one, or one read from a file. */
  datatype Member = Old(child: Child) | New(path: string)

  /** `normalize` is what paths are compared by: the file name, or with the `P` modifier the whole path.
      `relPos` is the member named with the `a`, `b` or `i` modifier and empty without one. */
  datatype Command = Command(
    operation: Operation, normalize: string -> string,
    relPos: string, addBefore: bool, listed: seq<string>)

  /** `BadPosition` is the failure of the assertion that the insertion point lies within the list. */
  datatype Outcome = Arranged(members: seq<Member>) | InsertionPointNotFound | BadPosition

  datatype InsertAction =
    | AddOldMember
    | AddNewMember(path: string)
    | DeleteIt
    | MoveOldMember
    | MoveNewMember(path: string)

  // ---------------------------------------------------------------- names

  function Without<T>(s: seq<T>, i: nat): seq<T>
    requires i < |s|
  {
    s[..i] + s[i+1..]
  }

  function Count(c: Command, names: seq<string>, key: string): nat {
    if names == [] then 0
    else Count(c, names[..|names|-1], key) + if c.normalize(names[|names|-1]) == key then 1 else 0
  }

  /** The path that matches `key` after `n` others that do. */
  function Nth(c: Command, names: seq<string>, key: string, n: nat): (path: string)
    requires n < Count(c, names, key)
    ensures path in names && c.normalize(path) == key
  {
    var last := |names| - 1;
    if n < Count(c, names[..last], key) then Nth(c, names[..last], key, n) else names[last]
  }

  /** The index of the first path that matches `key`, or the length. */
  function First(c: Command, names: seq<string>, key: string): (i: nat)
    ensures i <= |names| && (i < |names| ==> c.normalize(names[i]) == key)
    ensures forall j :: 0 <= j < i ==> c.normalize(names[j]) != key
  {
    if names == [] then 0
    else
      var last := |names| - 1;
      var i := First(c, names[..last], key);
      assert forall j :: 0 <= j < i ==> names[..last][j] == names[j];
      if i < last || c.normalize(names[last]) == key then i else |names|
  }

  function Names(children: seq<Child>): seq<string> {
    if children == [] then [] else Names(children[..|children|-1]) + [children[|children|-1].name]
  }

  /** The listed paths that the members called `seen` leave unused: each uses up one match. */
  function Left(c: Command, listed: seq<string>, seen: seq<string>): seq<string> {
    if listed == [] then []
    else
      var before, path := listed[..|listed|-1], listed[|listed|-1];
      var key := c.normalize(path);
      if Count(c, seen, key) <= Count(c, before, key) then Left(c, before, seen) + [path]
      else Left(c, before, seen)
  }

  lemma WithoutOfMore<T>(s: seq<T>, x: T, i: nat)
    requires i <= |s|
    ensures Without(s + [x], i) == if i < |s| then Without(s, i) + [x] else s
  {
  }

  lemma LeftOfMore(c: Command, before: seq<string>, path: string, seen: seq<string>)
    ensures Left(c, before + [path], seen)
            == if Count(c, seen, c.normalize(path)) <= Count(c, before, c.normalize(path))
               then Left(c, before, seen) + [path] else Left(c, before, seen)
  {
    assert (before + [path])[..|before|] == before;
  }

  lemma NthOfMore(c: Command, before: seq<string>, path: string, key: string, n: nat)
    requires n < Count(c, before + [path], key)
    ensures Nth(c, before + [path], key, n)
            == if n < Count(c, before, key) then Nth(c, before, key, n) else path
  {
    assert (before + [path])[..|before|] == before;
  }

  /** A member uses the first path left that matches it, which is the one numbered by the members of
      the same name before it. */
  lemma {:induction false} UseOne(c: Command, listed: seq<string>, seen: seq<string>, name: string)
    ensures var key := c.normalize(name);
            var left, i := Left(c, listed, seen), First(c, Left(c, listed, seen), key);
            var n := Count(c, seen, key);
            if n < Count(c, listed, key)
            then i < |left| && left[i] == Nth(c, listed, key, n)
                 && Left(c, listed, seen + [name]) == Without(left, i)
            else i == |left| && Left(c, listed, seen + [name]) == left
  {
    if listed == [] {
    } else {
      var before, path := listed[..|listed|-1], listed[|listed|-1];
      assert listed == before + [path];
      var key, left := c.normalize(name), Left(c, before, seen);
      var i := First(c, left, key);
      UseOne(c, before, seen, name);
      LeftOfMore(c, before, path, seen);
      LeftOfMore(c, before, path, seen + [name]);
      CountMore(c, seen, name, c.normalize(path));
      CountMore(c, before, path, key);
      FirstOfMore(c, left, path, key);
      hide First, Left, Count, Nth, Without;
      var n := Count(c, seen, key);
      if n < Count(c, before, key) {
        NthOfMore(c, before, path, key, n);
        WithoutOfMore(left, path, i);
      } else if c.normalize(path) == key && n == Count(c, before, key) {
        NthOfMore(c, before, path, key, n);
        WithoutOfMore(left, path, i);
      }
    }
  }

  lemma CountMore(c: Command, names: seq<string>, name: string, key: string)
    ensures Count(c, names + [name], key) == Count(c, names, key) + if c.normalize(name) == key then 1 else 0
  {
    assert (names + [name])[..|names|] == names;
  }

  lemma FirstOfMore(c: Command, names: seq<string>, path: string, key: string)
    ensures First(c, names + [path], key)
            == if First(c, names, key) < |names| || c.normalize(path) == key then First(c, names, key) else |names| + 1
  {
    assert (names + [path])[..|names|] == names;
  }

  // ---------------------------------------------------------------- what happens to each old member

  /** What is done with a member that the listed `path` matches. */
  function ActionFor(c: Command, path: string): InsertAction {
    if c.operation.Delete? then DeleteIt
    else if c.operation.Move? then MoveOldMember
    else if c.relPos == "" then AddNewMember(path)
    else MoveNewMember(path)
  }

  /** A member is taken by the command while the members of its name before it are fewer than the paths
      listed for that name. */
  function Turn(c: Command, before: seq<Child>, child: Child): InsertAction {
    var key := c.normalize(child.name);
    var n := Count(c, Names(before), key);
    if c.operation.QuickAppend? || Count(c, c.listed, key) <= n then AddOldMember
    else ActionFor(c, Nth(c, c.listed, key, n))
  }

  function Stays(a: InsertAction, child: Child): seq<Member> {
    match a
    case AddOldMember => [Old(child)]
    case AddNewMember(path) => [New(path)]
    case _ => []
  }

  function Moves(a: InsertAction, child: Child): seq<Member> {
    match a
    case MoveOldMember => [Old(child)]
    case MoveNewMember(path) => [New(path)]
    case _ => []
  }

  function Ret(c: Command, children: seq<Child>): seq<Member> {
    if children == [] then []
    else
      var before, child := children[..|children|-1], children[|children|-1];
      Ret(c, before) + Stays(Turn(c, before, child), child)
  }

  function Moved(c: Command, children: seq<Child>): seq<Member> {
    if children == [] then []
    else
      var before, child := children[..|children|-1], children[|children|-1];
      Moved(c, before) + Moves(Turn(c, before, child), child)
  }

  function Unused(c: Command, children: seq<Child>): seq<string> {
    if c.operation.QuickAppend? then c.listed else Left(c, c.listed, Names(children))
  }

  function InsertPos(c: Command, children: seq<Child>): (p: int)
    ensures -1 <= p
  {
    if children == [] then -1
    else
      var before, child := children[..|children|-1], children[|children|-1];
      if c.normalize(child.name) == c.normalize(c.relPos) then |Ret(c, before)| + (if c.addBefore then 0 else 1)
      else InsertPos(c, before)
  }

  function News(paths: seq<string>): (r: seq<Member>)
    ensures |r| == |paths| && forall k :: 0 <= k < |paths| ==> r[k] == New(paths[k])
  {
    seq(|paths|, i requires 0 <= i < |paths| => New(paths[i]))
  }

  function Assembled(c: Command, ret: seq<Member>, moved: seq<Member>, insertPos: int, members: seq<string>): Outcome
    requires -1 <= insertPos
  {
    if c.operation.Delete? then Arranged(ret)
    else if c.relPos != "" && insertPos == -1 then InsertionPointNotFound
    else
      var p := if c.relPos == "" then |ret| else insertPos;
      if |ret| < p then BadPosition
      else Arranged(ret[..p] + News(members) + moved + ret[p..])
  }

  function NewMembers(c: Command, children: seq<Child>): Outcome {
    Assembled(c, Ret(c, children), Moved(c, children), InsertPos(c, children), Unused(c, children))
  }

  // ---------------------------------------------------------------- the algorithm

  method FindListed(c: Command, members: seq<string>, name: string) returns (i: nat)
    ensures i == First(c, members, c.normalize(name))
  {
    i := 0;
    while i < |members| && c.normalize(members[i]) != c.normalize(name)
      invariant i <= |members|
      invariant forall j :: 0 <= j < i ==> c.normalize(members[j]) != c.normalize(name)
    {
      i := i + 1;
    }
  }

  method ComputeInsertAction(c: Command, members: seq<string>, name: string)
    returns (action: InsertAction, at: nat)
    ensures at <= |members|
    ensures c.operation.QuickAppend? ==> action == AddOldMember && at == |members|
    ensures !c.operation.QuickAppend? ==>
      at == First(c, members, c.normalize(name))
      && action == if at == |members| then AddOldMember else ActionFor(c, members[at])
  {
    if c.operation.QuickAppend? || members == [] {
      return AddOldMember, |members|;
    }
    at := FindListed(c, members, name);
    if at == |members| {
      return AddOldMember, at;
    }
    if c.operation.Delete? {
      return DeleteIt, at;
    }
    if c.operation.Move? {
      return MoveOldMember, at;
    }
    if c.relPos == "" {
      return AddNewMember(members[at]), at;
    }
    return MoveNewMember(members[at]), at;
  }

  /** Inserts the elements one by one, each after the one before it. */
  method InsertAt(ret: seq<Member>, more: seq<Member>, insertPos: nat) returns (r: seq<Member>)
    requires insertPos <= |ret|
    ensures r == ret[..insertPos] + more + ret[insertPos..]
  {
    r := ret;
    var pos, k := insertPos, 0;
    while k < |more|
      invariant k <= |more| && pos == insertPos + k
      invariant r == ret[..insertPos] + more[..k] + ret[insertPos..]
    {
      r := r[..pos] + [more[k]] + r[pos..];
      pos, k := pos + 1, k + 1;
    }
    assert more[..k] == more;
  }

  method ReadMembers(members: seq<string>) returns (r: seq<Member>)
    ensures r == News(members)
  {
    r := [];
    var k := 0;
    while k < |members|
      invariant k <= |members| && r == News(members)[..k]
    {
      r := r + [New(members[k])];
      k := k + 1;
    }
  }

  /** What the loop does for one more member, and what it leaves of the list. */
  lemma NextTurn(c: Command, before: seq<Child>, child: Child)
    ensures var key, members := c.normalize(child.name), Unused(c, before);
            var at := First(c, members, key);
            if c.operation.QuickAppend?
            then Turn(c, before, child) == AddOldMember && Unused(c, before + [child]) == members
            else Turn(c, before, child) == (if at == |members| then AddOldMember else ActionFor(c, members[at]))
                 && Unused(c, before + [child])
                    == if at == |members| then members else Without(members, at)
  {
    UseOne(c, c.listed, Names(before), child.name);
    assert (before + [child])[..|before|] == before;
  }

  lemma OneMore(c: Command, before: seq<Child>, child: Child)
    ensures Ret(c, before + [child]) == Ret(c, before) + Stays(Turn(c, before, child), child)
    ensures Moved(c, before + [child]) == Moved(c, before) + Moves(Turn(c, before, child), child)
    ensures InsertPos(c, before + [child])
            == if c.normalize(child.name) == c.normalize(c.relPos)
               then |Ret(c, before)| + (if c.addBefore then 0 else 1)
               else InsertPos(c, before)
  {
    assert (before + [child])[..|before|] == before;
  }

  method Arrange(c: Command, ret: seq<Member>, moved: seq<Member>, insertPos: int, members: seq<string>)
    returns (r: Outcome)
    requires -1 <= insertPos
    ensures r == Assembled(c, ret, moved, insertPos, members)
  {
    if c.operation.Delete? {
      return Arranged(ret);
    }
    if c.relPos != "" && insertPos == -1 {
      return InsertionPointNotFound;
    }
    var pos := insertPos;
    if c.relPos == "" {
      pos := |ret|;
    }
    if |ret| < pos {
      return BadPosition;
    }
    var withMoved := InsertAt(ret, moved, pos);
    var newMembers := ReadMembers(members);
    var all := InsertAt(withMoved, newMembers, pos);
    assert all == ret[..pos] + newMembers + moved + ret[pos..];
    return Arranged(all);
  }

  /** The lists of the loop after the members `before`. */
  ghost predicate Loop(c: Command, before: seq<Child>,
                       ret: seq<Member>, moved: seq<Member>, insertPos: int, members: seq<string>)
  {
    && ret == Ret(c, before) && moved == Moved(c, before)
    && insertPos == InsertPos(c, before) && members == Unused(c, before)
  }

  lemma {:induction false} LeftOfNothing(c: Command, listed: seq<string>)
    ensures Left(c, listed, []) == listed
  {
    if listed == [] {
    } else {
      LeftOfNothing(c, listed[..|listed|-1]);
    }
  }

  lemma LoopStarts(c: Command)
    ensures Loop(c, [], [], [], -1, c.listed)
  {
    LeftOfNothing(c, c.listed);
  }

  lemma LoopEnds(c: Command, children: seq<Child>,
                 ret: seq<Member>, moved: seq<Member>, insertPos: int, members: seq<string>)
    requires Loop(c, children, ret, moved, insertPos, members)
    ensures -1 <= insertPos && Assembled(c, ret, moved, insertPos, members) == NewMembers(c, children)
  {
  }

  method TakeChild(c: Command, ghost before: seq<Child>, child: Child,
                   ret0: seq<Member>, moved0: seq<Member>, insertPos0: int, members0: seq<string>)
    returns (ret: seq<Member>, moved: seq<Member>, insertPos: int, members: seq<string>)
    requires Loop(c, before, ret0, moved0, insertPos0, members0)
    ensures Loop(c, before + [child], ret, moved, insertPos, members)
  {
    OneMore(c, before, child);
    NextTurn(c, before, child);
    hide Ret, Moved, InsertPos, Unused, Turn, First, ActionFor, Without;
    ret, moved, insertPos, members := ret0, moved0, insertPos0, members0;
    if c.normalize(child.name) == c.normalize(c.relPos) {
      insertPos := if c.addBefore then |ret| else |ret| + 1;
    }
    var action, at := ComputeInsertAction(c, members, child.name);
    match action {
      case AddOldMember => ret := ret + [Old(child)];
      case AddNewMember(path) => ret := ret + [New(path)];
      case DeleteIt =>
      case MoveOldMember => moved := moved + [Old(child)];
      case MoveNewMember(path) => moved := moved + [New(path)];
    }
    if at != |members| {
      members := Without(members, at);
    }
  }

  method ComputeNewArchiveMembers(c: Command, children: seq<Child>) returns (r: Outcome)
    ensures r == NewMembers(c, children)
  {
    hide *;
    var ret, moved, insertPos, members := [], [], -1, c.listed;
    var i := 0;
    LoopStarts(c);
    assert children[..0] == [];
    while i < |children|
      invariant i <= |children| && Loop(c, children[..i], ret, moved, insertPos, members)
    {
      ret, moved, insertPos, members := TakeChild(c, children[..i], children[i], ret, moved, insertPos, members);
      assert children[..i+1] == children[..i] + [children[i]];
      i := i + 1;
    }
    assert children[..i] == children;
    LoopEnds(c, children, ret, moved, insertPos, members);
    r := Arrange(c, ret, moved, insertPos, members);
  }

  // ---------------------------------------------------------------- where the members go

  ghost predicate Taken(c: Command, children: seq<Child>, i: nat)
    requires i < |children|
  {
    Count(c, Names(children[..i]), c.normalize(children[i].name)) < Count(c, c.listed, c.normalize(children[i].name))
  }

  ghost predicate LastAnchor(c: Command, children: seq<Child>, a: nat) {
    && a < |children| && c.normalize(children[a].name) == c.normalize(c.relPos)
    && forall i :: a < i < |children| ==> c.normalize(children[i].name) != c.normalize(c.relPos)
  }

  lemma {:induction false} InsertPosIs(c: Command, children: seq<Child>, a: nat)
    requires LastAnchor(c, children, a)
    ensures InsertPos(c, children) == |Ret(c, children[..a])| + if c.addBefore then 0 else 1
  {
    var before := children[..|children|-1];
    if a == |before| {
    } else {
      assert c.normalize(before[a].name) == c.normalize(c.relPos) && before[..a] == children[..a];
      InsertPosIs(c, before, a);
    }
  }

  lemma {:induction false} NoInsertPos(c: Command, children: seq<Child>)
    ensures InsertPos(c, children) == -1
            <==> forall i :: 0 <= i < |children| ==> c.normalize(children[i].name) != c.normalize(c.relPos)
  {
    if children == [] {
    } else {
      NoInsertPos(c, children[..|children|-1]);
    }
  }

  /** The members kept so far stay where they are. */
  lemma {:induction false} RetGrows(c: Command, children: seq<Child>, n: nat)
    requires n <= |children|
    ensures Ret(c, children[..n]) <= Ret(c, children)
  {
    if n == |children| {
      assert children[..n] == children;
    } else {
      var before := children[..|children|-1];
      assert before[..n] == children[..n];
      RetGrows(c, before, n);
    }
  }

  lemma LastStays(c: Command, children: seq<Child>)
    requires children != [] && (c.operation.Move? || (c.operation.ReplaceOrInsert? && c.relPos != ""))
    ensures var last := |children| - 1;
            if Taken(c, children, last) then Ret(c, children) == Ret(c, children[..last])
            else |Ret(c, children)| == |Ret(c, children[..last])| + 1
  {
    hide Count, Names;
  }

  /** The command takes every member from `a` on. */
  ghost predicate AllTaken(c: Command, children: seq<Child>, a: nat) {
    forall i :: a <= i < |children| ==> Taken(c, children, i)
  }

  lemma AllTakenOfMore(c: Command, children: seq<Child>, a: nat)
    requires a < |children|
    ensures AllTaken(c, children, a)
            <==> AllTaken(c, children[..|children|-1], a) && Taken(c, children, |children| - 1)
  {
    var before := children[..|children|-1];
    forall i | a <= i < |before| ensures Taken(c, before, i) == Taken(c, children, i) {
      assert before[..i] == children[..i];
    }
    hide Taken;
  }

  /** With a position given, nothing is kept from `a` on exactly if the command takes every member from
      there on. */
  lemma {:induction false} NothingStays(c: Command, children: seq<Child>, a: nat)
    requires a <= |children| && (c.operation.Move? || (c.operation.ReplaceOrInsert? && c.relPos != ""))
    ensures |Ret(c, children)| == |Ret(c, children[..a])| <==> AllTaken(c, children, a)
  {
    if a == |children| {
      assert children[..a] == children;
    } else {
      hide *;
      var before := children[..|children|-1];
      assert before[..a] == children[..a];
      NothingStays(c, before, a);
      RetGrows(c, before, a);
      AllTakenOfMore(c, children, a);
      LastStays(c, children);
    }
  }

  /** When the command fails, exactly: the position is named but no member bears the name, or the new
      members belong after a member and the command takes that member away with all that follow it. */
  lemma PositionTheorem(c: Command, children: seq<Child>)
    requires c.relPos != "" ==> c.operation.Move? || c.operation.ReplaceOrInsert?
    ensures NewMembers(c, children) == InsertionPointNotFound
            <==> c.relPos != ""
                 && forall i :: 0 <= i < |children| ==> c.normalize(children[i].name) != c.normalize(c.relPos)
    ensures NewMembers(c, children) == BadPosition
            <==> c.relPos != "" && !c.addBefore
                 && exists a: nat :: LastAnchor(c, children, a) && AllTaken(c, children, a)
  {
    NoInsertPos(c, children);
    if c.relPos != "" {
      forall a: nat | LastAnchor(c, children, a)
        ensures InsertPos(c, children) == |Ret(c, children[..a])| + if c.addBefore then 0 else 1
        ensures |Ret(c, children[..a])| <= |Ret(c, children)|
        ensures |Ret(c, children)| == |Ret(c, children[..a])| <==> AllTaken(c, children, a)
      {
        InsertPosIs(c, children, a);
        RetGrows(c, children, a);
        NothingStays(c, children, a);
      }
      if InsertPos(c, children) != -1 {
        var a := SomeLastAnchor(c, children);
      }
    }
  }

  lemma {:induction false} SomeLastAnchor(c: Command, children: seq<Child>) returns (a: nat)
    requires exists i :: 0 <= i < |children| && c.normalize(children[i].name) == c.normalize(c.relPos)
    ensures LastAnchor(c, children, a)
  {
    var last := |children| - 1;
    if c.normalize(children[last].name) == c.normalize(c.relPos) {
      a := last;
    } else {
      var i :| 0 <= i < |children| && c.normalize(children[i].name) == c.normalize(c.relPos);
      assert children[..last][i] == children[i];
      a := SomeLastAnchor(c, children[..last]);
    }
  }

  /** Moving the only member after itself is the shortest command of the failing kind. */
  lemma MovedAfterItself(c: Command, child: Child)
    requires c.operation.Move? && c.relPos == child.name != "" && !c.addBefore && c.listed == [child.name]
    ensures NewMembers(c, [child]) == BadPosition
  {
    var children := [child];
    assert LastAnchor(c, children, 0);
    assert children[..0] == [];
    assert c.listed[..0] == [];
    assert Taken(c, children, 0);
    PositionTheorem(c, children);
  }

  // ---------------------------------------------------------------- nothing is lost

  function Olds(children: seq<Child>): (r: seq<Member>)
    ensures |r| == |children| && forall k :: 0 <= k < |children| ==> r[k] == Old(children[k])
  {
    seq(|children|, i requires 0 <= i < |children| => Old(children[i]))
  }

  /** The old members that the command does not take, in their order. */
  ghost function Kept(c: Command, children: seq<Child>): seq<Member> {
    if children == [] then []
    else
      var last := |children| - 1;
      if Taken(c, children, last) then Kept(c, children[..last])
      else Kept(c, children[..last]) + [Old(children[last])]
  }

  /** What stands for a member that is taken: the path with the number of the member among those of its
      name, or when moving the member itself. */
  ghost function Replacement(c: Command, children: seq<Child>, i: nat): Member
    requires i < |children| && Taken(c, children, i)
  {
    var key := c.normalize(children[i].name);
    if c.operation.Move? then Old(children[i])
    else New(Nth(c, c.listed, key, Count(c, Names(children[..i]), key)))
  }

  /** What stands for the members that are taken, in the old order. */
  ghost function Replacements(c: Command, children: seq<Child>): seq<Member> {
    if children == [] then []
    else
      var last := |children| - 1;
      if Taken(c, children, last) then Replacements(c, children[..last]) + [Replacement(c, children, last)]
      else Replacements(c, children[..last])
  }

  lemma OldsOfMore(before: seq<Child>, child: Child)
    ensures Olds(before + [child]) == Olds(before) + [Old(child)]
  {
  }

  lemma KeptOfMore(c: Command, before: seq<Child>, child: Child)
    requires !c.operation.QuickAppend?
    ensures Kept(c, before + [child])
            == if Turn(c, before, child) == AddOldMember then Kept(c, before) + [Old(child)] else Kept(c, before)
  {
    TurnIs(c, before + [child]);
    assert (before + [child])[..|before|] == before;
    hide Taken, Turn, Count, Names;
  }

  /** The turn of the last member. */
  lemma TurnIs(c: Command, children: seq<Child>)
    requires !c.operation.QuickAppend? && children != []
    ensures var last := |children| - 1;
            var key := c.normalize(children[last].name);
            var n := Count(c, Names(children[..last]), key);
            if Taken(c, children, last)
            then n < Count(c, c.listed, key)
                 && Turn(c, children[..last], children[last]) == ActionFor(c, Nth(c, c.listed, key, n))
                 && ActionFor(c, Nth(c, c.listed, key, n)) != AddOldMember
            else Turn(c, children[..last], children[last]) == AddOldMember
  {
    hide Count, Names, Nth;
  }

  lemma NewsWithout(paths: seq<string>, i: nat)
    requires i < |paths|
    ensures multiset(News(paths)) == multiset(News(Without(paths, i))) + multiset{New(paths[i])}
  {
    var news := News(paths);
    assert news == news[..i] + [news[i]] + news[i+1..];
    assert News(Without(paths, i)) == news[..i] + news[i+1..];
  }

  lemma SumOfMore(ret: seq<Member>, moved: seq<Member>, stays: seq<Member>, moves: seq<Member>)
    ensures multiset(ret + stays) + multiset(moved + moves)
            == multiset(ret) + multiset(moved) + (multiset(stays) + multiset(moves))
  {
  }

  lemma OneOfTwo(action: InsertAction, child: Child)
    ensures multiset(Stays(action, child)) + multiset(Moves(action, child))
            == match action
               case DeleteIt => multiset{}
               case AddNewMember(path) => multiset{New(path)}
               case MoveNewMember(path) => multiset{New(path)}
               case _ => multiset{Old(child)}
  {
  }

  lemma MovingAction(c: Command, before: seq<Child>, child: Child)
    requires c.operation.Move?
    ensures Turn(c, before, child) == AddOldMember || Turn(c, before, child) == MoveOldMember
  {
  }

  /** Moving keeps every old member. */
  lemma {:induction false} MovingKeeps(c: Command, children: seq<Child>)
    requires c.operation.Move?
    ensures multiset(Ret(c, children)) + multiset(Moved(c, children)) == multiset(Olds(children))
  {
    if children == [] {
    } else {
      hide *;
      var before, child := children[..|children|-1], children[|children|-1];
      assert before + [child] == children;
      MovingKeeps(c, before);
      OldsOfMore(before, child);
      OneMore(c, before, child);
      MovingAction(c, before, child);
      var action := Turn(c, before, child);
      SumOfMore(Ret(c, before), Moved(c, before), Stays(action, child), Moves(action, child));
      OneOfTwo(action, child);
    }
  }

  /** All that a replacing command has collected so far, or may still add. */
  ghost function Collected(c: Command, children: seq<Child>): multiset<Member> {
    multiset(Ret(c, children)) + multiset(Moved(c, children)) + multiset(News(Unused(c, children)))
  }

  lemma CollectsOneMore(c: Command, before: seq<Child>, child: Child)
    requires c.operation.ReplaceOrInsert?
    ensures Collected(c, before + [child])
            == Collected(c, before)
               + if Turn(c, before, child) == AddOldMember then multiset{Old(child)} else multiset{}
  {
    hide *;
    NextTurn(c, before, child);
    OneMore(c, before, child);
    var members, action := Unused(c, before), Turn(c, before, child);
    var at := First(c, members, c.normalize(child.name));
    CollectedIs(c, before);
    CollectedIs(c, before + [child]);
    SumOfMore(Ret(c, before), Moved(c, before), Stays(action, child), Moves(action, child));
    OneOfTwo(action, child);
    if at < |members| {
      NewsWithout(members, at);
      ReplacingAction(c, members[at]);
    }
  }

  lemma CollectedIs(c: Command, children: seq<Child>)
    ensures Collected(c, children)
            == multiset(Ret(c, children)) + multiset(Moved(c, children)) + multiset(News(Unused(c, children)))
  {
  }

  lemma ReplacingAction(c: Command, path: string)
    requires c.operation.ReplaceOrInsert?
    ensures ActionFor(c, path) == AddNewMember(path) || ActionFor(c, path) == MoveNewMember(path)
  {
  }

  /** Replacing keeps the old members it does not take, and every listed path is used or left. */
  lemma {:induction false} ReplacingKeeps(c: Command, children: seq<Child>)
    requires c.operation.ReplaceOrInsert?
    ensures Collected(c, children) == multiset(Kept(c, children)) + multiset(News(c.listed))
  {
    if children == [] {
      LeftOfNothing(c, c.listed);
    } else {
      var before, child := children[..|children|-1], children[|children|-1];
      assert before + [child] == children;
      ReplacingKeeps(c, before);
      CollectsOneMore(c, before, child);
      KeptOfMore(c, before, child);
      hide Collected, Kept, News, Turn;
    }
  }

  lemma SpliceMultiset(s: seq<Member>, p: nat, t: seq<Member>, u: seq<Member>)
    requires p <= |s|
    ensures multiset(s[..p] + t + u + s[p..]) == multiset(s) + multiset(u) + multiset(t)
  {
    assert s == s[..p] + s[p..];
  }

  /** What a command that succeeds has in the archive, whatever the order. */
  lemma Conservation(c: Command, children: seq<Child>)
    requires NewMembers(c, children).Arranged?
    ensures var r := NewMembers(c, children).members;
            match c.operation
            case Delete => multiset(r) == multiset(Kept(c, children))
            case Move => multiset(r) == multiset(Olds(children)) + multiset(News(Unused(c, children)))
            case ReplaceOrInsert => multiset(r) == multiset(Kept(c, children)) + multiset(News(c.listed))
            case QuickAppend => multiset(r) == multiset(Olds(children)) + multiset(News(c.listed))
  {
    hide Ret, Moved, Kept, Olds, News, Left, InsertPos;
    var ret, moved, news := Ret(c, children), Moved(c, children), News(Unused(c, children));
    if c.operation.Delete? {
      DeletedIsKept(c, children);
    } else {
      var p := if c.relPos == "" then |ret| else InsertPos(c, children);
      SpliceMultiset(ret, p, news, moved);
      if c.operation.Move? {
        MovingKeeps(c, children);
      } else if c.operation.ReplaceOrInsert? {
        ReplacingKeeps(c, children);
      } else {
        AppendingKeeps(c, children);
      }
    }
  }

  lemma {:induction false} DeletedIsKept(c: Command, children: seq<Child>)
    requires c.operation.Delete?
    ensures Ret(c, children) == Kept(c, children)
  {
    if children == [] {
    } else {
      DeletedIsKept(c, children[..|children|-1]);
      TurnIs(c, children);
      hide Turn, Taken, Count, Names, Nth;
    }
  }

  lemma {:induction false} AppendingKeeps(c: Command, children: seq<Child>)
    requires c.operation.QuickAppend?
    ensures Ret(c, children) == Olds(children) && Moved(c, children) == []
  {
    if children == [] {
    } else {
      var before, child := children[..|children|-1], children[|children|-1];
      assert before + [child] == children;
      AppendingKeeps(c, before);
      OldsOfMore(before, child);
    }
  }

  // ---------------------------------------------------------------- move, replace and delete

  /** Every listed name is borne by at least as many members as the list has paths for it. */
  ghost predicate AllPresent(c: Command, children: seq<Child>) {
    forall j :: 0 <= j < |c.listed| ==>
      Count(c, c.listed, c.normalize(c.listed[j])) <= Count(c, Names(children), c.normalize(c.listed[j]))
  }

  lemma {:induction false} NoneLeft(c: Command, n: nat, seen: seq<string>)
    requires n <= |c.listed|
    requires forall j :: 0 <= j < |c.listed| ==>
      Count(c, c.listed, c.normalize(c.listed[j])) <= Count(c, seen, c.normalize(c.listed[j]))
    ensures Left(c, c.listed[..n], seen) == []
  {
    if n == 0 {
    } else {
      var before, path := c.listed[..n-1], c.listed[n-1];
      assert c.listed[..n] == before + [path];
      NoneLeft(c, n - 1, seen);
      LeftOfMore(c, before, path, seen);
      CountMore(c, before, path, c.normalize(path));
      CountGrows(c, c.listed, n, c.normalize(path));
    }
  }

  lemma {:induction false} CountGrows(c: Command, names: seq<string>, n: nat, key: string)
    requires n <= |names|
    ensures Count(c, names[..n], key) <= Count(c, names, key)
  {
    if n == |names| {
      assert names[..n] == names;
    } else {
      assert names[..|names|-1][..n] == names[..n];
      CountGrows(c, names[..|names|-1], n, key);
    }
  }

  lemma LastKeptAndMoved(c: Command, children: seq<Child>)
    requires c.operation.Move? || (c.operation.ReplaceOrInsert? && c.relPos != "")
    requires children != []
    ensures var last := |children| - 1;
            var turn := Turn(c, children[..last], children[last]);
            if Taken(c, children, last)
            then Stays(turn, children[last]) == [] && Moves(turn, children[last]) == [Replacement(c, children, last)]
            else Stays(turn, children[last]) == [Old(children[last])] && Moves(turn, children[last]) == []
  {
    TurnIs(c, children);
    hide Turn, Taken, Count, Names, Nth;
  }

  /** What the loop keeps and what it puts aside, when it puts anything aside. */
  lemma {:induction false} KeptAndMoved(c: Command, children: seq<Child>)
    requires c.operation.Move? || (c.operation.ReplaceOrInsert? && c.relPos != "")
    ensures Ret(c, children) == Kept(c, children) && Moved(c, children) == Replacements(c, children)
  {
    hide Turn, Taken, Stays, Moves, Replacement;
    if children == [] {
    } else {
      KeptAndMoved(c, children[..|children|-1]);
      LastKeptAndMoved(c, children);
    }
  }

  lemma {:induction false} KeptGrows(c: Command, children: seq<Child>, n: nat)
    requires n <= |children|
    ensures Kept(c, children[..n]) <= Kept(c, children)
  {
    if n == |children| {
      assert children[..n] == children;
    } else {
      var before := children[..|children|-1];
      assert before[..n] == children[..n];
      KeptGrows(c, before, n);
      hide Taken;
    }
  }

  lemma AnchorIsKept(c: Command, children: seq<Child>, a: nat)
    requires a < |children| && !Taken(c, children, a)
    ensures Kept(c, children[..a+1]) == Kept(c, children[..a]) + [Old(children[a])]
    ensures Kept(c, children[..a+1]) <= Kept(c, children)
  {
    assert children[..a+1][..a] == children[..a] && children[..a+1][a] == children[a];
    assert !Taken(c, children[..a+1], a);
    KeptGrows(c, children, a + 1);
    hide Taken;
  }

  /** Moving or replacing at a position: the members that are not taken keep their order; behind those of
      them that come before the last member of the named name, and behind that one with the `a` modifier,
      stand the unused paths, in the order of the command, and then what stands for the taken members, in
      the old order.  If that last member is not taken itself it stands right there. */
  lemma PlaceTheorem(c: Command, children: seq<Child>, a: nat)
    requires (c.operation.Move? || c.operation.ReplaceOrInsert?) && c.relPos != "" && LastAnchor(c, children, a)
    ensures var kept, anchor := Kept(c, children), |Kept(c, children[..a])|;
            var p := if c.addBefore then anchor else anchor + 1;
            && anchor <= |kept|
            && (!Taken(c, children, a) ==> anchor < |kept| && kept[anchor] == Old(children[a]))
            && NewMembers(c, children)
               == if |kept| < p then BadPosition
                  else Arranged(kept[..p] + News(Left(c, c.listed, Names(children))) + Replacements(c, children)
                                + kept[p..])
  {
    assert a < |children|;
    hide Ret, Moved, Kept, Replacements, InsertPos, Left, Names, Taken, LastAnchor, News;
    KeptAndMoved(c, children);
    KeptAndMoved(c, children[..a]);
    InsertPosIs(c, children, a);
    KeptGrows(c, children, a);
    if !Taken(c, children, a) {
      AnchorIsKept(c, children, a);
    }
  }

  /** When every listed path has a member to move, the moved members are all that is inserted, and nothing
      is lost. */
  lemma MoveTheorem(c: Command, children: seq<Child>, a: nat)
    requires c.operation.Move? && c.relPos != "" && AllPresent(c, children)
    requires LastAnchor(c, children, a) && !Taken(c, children, a)
    ensures var kept, moved := Kept(c, children), Replacements(c, children);
            var anchor := |Kept(c, children[..a])|;
            var p := if c.addBefore then anchor else anchor + 1;
            && anchor < |kept| && kept[anchor] == Old(children[a])
            && NewMembers(c, children) == Arranged(kept[..p] + moved + kept[p..])
            && multiset(kept[..p] + moved + kept[p..]) == multiset(Olds(children))
  {
    assert a < |children|;
    hide *;
    PlaceTheorem(c, children, a);
    AllUsed(c, children);
    MovingKeeps(c, children);
    KeptAndMoved(c, children);
    var kept, moved, anchor := Kept(c, children), Replacements(c, children), |Kept(c, children[..a])|;
    NothingBetween(kept, moved, if c.addBefore then anchor else anchor + 1);
  }

  lemma AllUsed(c: Command, children: seq<Child>)
    requires AllPresent(c, children)
    ensures Left(c, c.listed, Names(children)) == []
  {
    NoneLeft(c, |c.listed|, Names(children));
    assert c.listed[..|c.listed|] == c.listed;
  }

  lemma NothingBetween(kept: seq<Member>, moved: seq<Member>, p: nat)
    requires p <= |kept|
    ensures kept[..p] + News([]) + moved + kept[p..] == kept[..p] + moved + kept[p..]
    ensures multiset(kept[..p] + moved + kept[p..]) == multiset(kept) + multiset(moved)
  {
    assert News([]) == [] && kept[..p] + [] == kept[..p];
    SpliceMultiset(kept, p, [], moved);
  }

  lemma AtTheEnd(c: Command, ret: seq<Member>, moved: seq<Member>, insertPos: int, left: seq<string>)
    requires !c.operation.Delete? && c.relPos == "" && -1 <= insertPos
    ensures Assembled(c, ret, moved, insertPos, left) == Arranged(ret + News(left) + moved)
  {
    assert ret[..|ret|] + News(left) + moved + ret[|ret|..] == ret + News(left) + moved;
  }

  /** Moving without a position: the members that are not taken keep their order, then come the unused
      paths, in the order of the command, and last the moved members, in their old order. */
  lemma MoveToEndTheorem(c: Command, children: seq<Child>)
    requires c.operation.Move? && c.relPos == ""
    ensures NewMembers(c, children)
            == Arranged(Kept(c, children) + News(Left(c, c.listed, Names(children))) + Replacements(c, children))
  {
    hide Ret, Moved, Kept, Replacements, InsertPos, Left, Names, Assembled;
    KeptAndMoved(c, children);
    AtTheEnd(c, Ret(c, children), Moved(c, children), InsertPos(c, children), Unused(c, children));
  }

  /** Appending: the old members and then all paths, in the order of the command. */
  lemma AppendTheorem(c: Command, children: seq<Child>)
    requires c.operation.QuickAppend? && c.relPos == ""
    ensures NewMembers(c, children) == Arranged(Olds(children) + News(c.listed))
  {
    hide Ret, Moved, Olds, InsertPos, Assembled;
    AppendingKeeps(c, children);
    AtTheEnd(c, Ret(c, children), Moved(c, children), InsertPos(c, children), c.listed);
    assert Olds(children) + News(c.listed) + [] == Olds(children) + News(c.listed);
  }

  /** Deleting leaves exactly the members that are not taken, in their order. */
  lemma DeleteTheorem(c: Command, children: seq<Child>)
    requires c.operation.Delete?
    ensures NewMembers(c, children) == Arranged(Kept(c, children))
  {
    DeletedIsKept(c, children);
  }

  /** `m` stands at index `i` of the new archive: what stands for the member if it is taken, or the old
      member. */
  ghost predicate InPlace(c: Command, children: seq<Child>, i: nat, m: Member)
    requires i < |children|
  {
    m == if Taken(c, children, i) then Replacement(c, children, i) else Old(children[i])
  }

  ghost predicate AllInPlace(c: Command, children: seq<Child>, members: seq<Member>) {
    |children| <= |members| && forall i :: 0 <= i < |children| ==> InPlace(c, children, i, members[i])
  }

  lemma LastInPlace(c: Command, before: seq<Child>, child: Child) returns (m: Member)
    requires c.operation.ReplaceOrInsert? && c.relPos == ""
    ensures InPlace(c, before + [child], |before|, m)
    ensures Ret(c, before + [child]) == Ret(c, before) + [m] && Moved(c, before + [child]) == Moved(c, before)
  {
    var children := before + [child];
    assert children[..|before|] == before && children[|before|] == child;
    TurnIs(c, children);
    hide Count, Names, Ret, Moved, Turn, Taken, Nth;
    OneMore(c, before, child);
    m := if Taken(c, children, |before|) then Replacement(c, children, |before|) else Old(child);
  }

  lemma InPlaceOfMore(c: Command, children: seq<Child>, members: seq<Member>, m: Member)
    requires children != [] && |members| == |children| - 1
    requires AllInPlace(c, children[..|children|-1], members) && InPlace(c, children, |children| - 1, m)
    ensures AllInPlace(c, children, members + [m])
  {
    forall i | 0 <= i < |members| ensures InPlace(c, children, i, members[i]) {
      assert children[..|children|-1][..i] == children[..i];
      assert InPlace(c, children[..|children|-1], i, members[i]);
      hide Count, Names, Nth;
    }
    hide InPlace;
  }

  lemma {:induction false} ReplacedInPlace(c: Command, children: seq<Child>)
    requires c.operation.ReplaceOrInsert? && c.relPos == ""
    ensures |Ret(c, children)| == |children| && Moved(c, children) == []
    ensures AllInPlace(c, children, Ret(c, children))
  {
    if children == [] {
    } else {
      var before := children[..|children|-1];
      assert before + [children[|before|]] == children;
      ReplacedInPlace(c, before);
      var m := LastInPlace(c, before, children[|before|]);
      hide *;
      InPlaceOfMore(c, children, Ret(c, before), m);
    }
  }

  /** Replacing without a position: every member that is taken is replaced where it stands, by the path
      with its number among those of its name, every other stays; the paths left unused follow the old
      members in the order of the command. */
  lemma ReplaceTheorem(c: Command, children: seq<Child>)
    requires c.operation.ReplaceOrInsert? && c.relPos == ""
    ensures NewMembers(c, children).Arranged?
    ensures var r := NewMembers(c, children).members;
            AllInPlace(c, children, r) && r[|children|..] == News(Left(c, c.listed, Names(children)))
  {
    hide Ret, Moved, InsertPos, Left, Names, Assembled, News;
    ReplacedInPlace(c, children);
    var ret, left := Ret(c, children), Left(c, c.listed, Names(children));
    assert NewMembers(c, children) == Assembled(c, ret, [], InsertPos(c, children), left);
    hide *;
    AtTheEnd(c, ret, [], InsertPos(c, children), left);
    InPlaceOfRest(c, children, ret, News(left));
  }

  lemma InPlaceOfRest(c: Command, children: seq<Child>, members: seq<Member>, rest: seq<Member>)
    requires AllInPlace(c, children, members) && |members| == |children|
    ensures AllInPlace(c, children, members + rest) && (members + rest)[|children|..] == rest
  {
    hide InPlace;
  }

  // ---------------------------------------------------------------- no name listed twice

  /** No two listed paths match the same name. */
  ghost predicate DistinctNames(c: Command) {
    forall i, j :: 0 <= i < j < |c.listed| ==> c.normalize(c.listed[i]) != c.normalize(c.listed[j])
  }

  ghost predicate IsListed(c: Command, name: string) {
    exists j :: 0 <= j < |c.listed| && c.normalize(c.listed[j]) == c.normalize(name)
  }

  ghost predicate Bears(c: Command, children: seq<Child>, name: string) {
    exists i :: 0 <= i < |children| && c.normalize(children[i].name) == c.normalize(name)
  }

  lemma {:induction false} CountPositive(c: Command, names: seq<string>, key: string)
    ensures Count(c, names, key) > 0 <==> exists j :: 0 <= j < |names| && c.normalize(names[j]) == key
  {
    if names == [] {
    } else {
      CountPositive(c, names[..|names|-1], key);
    }
  }

  lemma {:induction false} CountAtMostOne(c: Command, n: nat, key: string)
    requires DistinctNames(c) && n <= |c.listed|
    ensures Count(c, c.listed[..n], key) <= 1
  {
    if n == 0 {
    } else {
      assert c.listed[..n][..n-1] == c.listed[..n-1];
      CountAtMostOne(c, n - 1, key);
      CountPositive(c, c.listed[..n-1], key);
    }
  }

  lemma {:induction false} NamesAt(children: seq<Child>)
    ensures |Names(children)| == |children|
    ensures forall i :: 0 <= i < |children| ==> Names(children)[i] == children[i].name
  {
    if children == [] {
    } else {
      NamesAt(children[..|children|-1]);
    }
  }

  /** With distinct names listed, the command takes the first member of each listed name. */
  lemma TakenIsFirst(c: Command, children: seq<Child>, i: nat)
    requires DistinctNames(c) && i < |children|
    ensures Taken(c, children, i)
            <==> IsListed(c, children[i].name) && !Bears(c, children[..i], children[i].name)
  {
    var name, before := children[i].name, children[..i];
    CountAtMostOne(c, |c.listed|, c.normalize(name));
    assert c.listed[..|c.listed|] == c.listed;
    CountPositive(c, c.listed, c.normalize(name));
    CountPositive(c, Names(before), c.normalize(name));
    NamesAt(before);
  }

  /** The old members other than the first of each listed name. */
  ghost function Survivors(c: Command, children: seq<Child>): seq<Member> {
    if children == [] then []
    else
      var before, child := children[..|children|-1], children[|children|-1];
      if IsListed(c, child.name) && !Bears(c, before, child.name) then Survivors(c, before)
      else Survivors(c, before) + [Old(child)]
  }

  lemma {:induction false} KeptAreSurvivors(c: Command, children: seq<Child>)
    requires DistinctNames(c)
    ensures Kept(c, children) == Survivors(c, children)
  {
    if children == [] {
    } else {
      KeptAreSurvivors(c, children[..|children|-1]);
      TakenIsFirst(c, children, |children| - 1);
      hide Taken, IsListed, Bears;
    }
  }

  /** The first old member of each listed name, in the old order. */
  ghost function FirstBearers(c: Command, children: seq<Child>): seq<Member> {
    if children == [] then []
    else
      var before, child := children[..|children|-1], children[|children|-1];
      if IsListed(c, child.name) && !Bears(c, before, child.name) then FirstBearers(c, before) + [Old(child)]
      else FirstBearers(c, before)
  }

  /** With no name listed twice, what is moved and kept are the first member of each listed name and the
      others. */
  lemma {:induction false} MovedAreFirstBearers(c: Command, children: seq<Child>)
    requires DistinctNames(c) && c.operation.Move?
    ensures Replacements(c, children) == FirstBearers(c, children) && Kept(c, children) == Survivors(c, children)
  {
    KeptAreSurvivors(c, children);
    if children == [] {
    } else {
      MovedAreFirstBearers(c, children[..|children|-1]);
      TakenIsFirst(c, children, |children| - 1);
      hide Taken, IsListed, Bears, Survivors, Kept;
    }
  }

  /** With no name listed twice, deleting removes the first member of each listed name and nothing else. */
  lemma DeletesFirstBearers(c: Command, children: seq<Child>)
    requires c.operation.Delete? && DistinctNames(c)
    ensures NewMembers(c, children) == Arranged(Survivors(c, children))
  {
    DeleteTheorem(c, children);
    KeptAreSurvivors(c, children);
  }

  /** The listed paths whose name no old member bears, in the order of the command. */
  ghost function Unmatched(c: Command, listed: seq<string>, children: seq<Child>): seq<string> {
    if listed == [] then []
    else
      var before, path := listed[..|listed|-1], listed[|listed|-1];
      if Bears(c, children, path) then Unmatched(c, before, children) else Unmatched(c, before, children) + [path]
  }

  lemma {:induction false} LeftIsUnmatched(c: Command, n: nat, children: seq<Child>)
    requires DistinctNames(c) && n <= |c.listed|
    ensures Left(c, c.listed[..n], Names(children)) == Unmatched(c, c.listed[..n], children)
  {
    if n == 0 {
    } else {
      var before, path := c.listed[..n-1], c.listed[n-1];
      assert c.listed[..n] == before + [path] && c.listed[..n][..n-1] == before;
      LeftIsUnmatched(c, n - 1, children);
      CountPositive(c, before, c.normalize(path));
      CountPositive(c, Names(children), c.normalize(path));
      NamesAt(children);
    }
  }

  /** With no name listed twice, the first member of each listed name is replaced by the file listed for
      it, and the paths that no member matches follow. */
  lemma ReplacesFirstBearers(c: Command, children: seq<Child>)
    requires c.operation.ReplaceOrInsert? && c.relPos == "" && DistinctNames(c)
    ensures NewMembers(c, children).Arranged? && |children| <= |NewMembers(c, children).members|
    ensures var r := NewMembers(c, children).members;
            && r[|children|..] == News(Unmatched(c, c.listed, children))
            && forall i :: 0 <= i < |children| ==>
                 if IsListed(c, children[i].name) && !Bears(c, children[..i], children[i].name)
                 then r[i].New? && r[i].path in c.listed && c.normalize(r[i].path) == c.normalize(children[i].name)
                 else r[i] == Old(children[i])
  {
    ReplaceTheorem(c, children);
    LeftIsUnmatched(c, |c.listed|, children);
    assert c.listed[..|c.listed|] == c.listed;
    var r := NewMembers(c, children).members;
    hide NewMembers, Left, Unmatched, News;
    forall i | 0 <= i < |children|
      ensures if IsListed(c, children[i].name) && !Bears(c, children[..i], children[i].name)
              then r[i].New? && r[i].path in c.listed && c.normalize(r[i].path) == c.normalize(children[i].name)
              else r[i] == Old(children[i])
    {
      assert InPlace(c, children, i, r[i]);
      TakenIsFirst(c, children, i);
      hide Count, Names, IsListed, Bears;
    }
    hide InPlace, IsListed, Bears;
  }
}
