/** The rotating log file: Write splits its input at newlines so that no file outgrows the limit. */
module RotateFile {
  import opened Words

  const NEWLINE: byte := 10

  // The open file with its contents, and the files rotated out, by name.
  datatype Log = Log(path: string, maxSize: int, pos: nat, current: seq<byte>, archive: map<string, seq<byte>>)

  // Crashed is a slice out of range; RenameFailed carries what was reported as written.
  datatype Result = Done(log: Log, written: nat) | RenameFailed(log: Log, written: nat) | Crashed

  // The clock's stamp for each rotation of a call, and the first rotation whose rename fails.
  datatype Env = Env(stamp: nat -> string, failAt: nat)

  // The backward search for a newline from j; it never looks at position 0.
  function Cut(p: seq<byte>, j: nat): (r: nat)
    requires j < |p| || j == 0
    ensures r <= j
  {
    if j == 0 || p[j] == NEWLINE then j else Cut(p, j - 1)
  }

  function Archived(l: Log, stamp: string): string { l.path + "." + stamp }

  function Rotate(l: Log, stamp: string): Log {
    l.(archive := l.archive[Archived(l, stamp) := l.current], current := [], pos := 0)
  }

  // ---- What is written and what is dropped -----------------------------------------------

  // What a call does with its input: a last piece, or a piece, the byte dropped after it, and what goes into the
  // next files.
  datatype Plan = Last(piece: seq<byte>) | Then(piece: seq<byte>, dropped: byte, next: Plan)

  function Cuts(maxSize: nat, pos: nat, p: seq<byte>): Plan
    requires pos <= maxSize
    decreases |p|
  {
    if pos + |p| <= maxSize then Last(p)
    else
      var j := Cut(p, maxSize - pos);
      Then(p[..j], p[j], Cuts(maxSize, 0, p[j + 1..]))
  }

  // Pieces and dropped bytes put back together.
  function Weave(plan: Plan): seq<byte> {
    match plan
    case Last(piece) => piece
    case Then(piece, dropped, next) => piece + [dropped] + Weave(next)
  }

  function Rotations(plan: Plan): nat { if plan.Last? then 0 else 1 + Rotations(plan.next) }

  // The first piece fits the room that is left, the others a whole file.
  predicate Fitting(plan: Plan, room: nat, maxSize: nat) {
    |plan.piece| <= room && (plan.Then? ==> Fitting(plan.next, maxSize, maxSize))
  }

  // A byte dropped after a non-empty piece is a newline.
  predicate CutAtLineEnds(plan: Plan) {
    plan.Then? ==> (plan.piece != [] ==> plan.dropped == NEWLINE) && CutAtLineEnds(plan.next)
  }

  lemma {:induction false} CutMeaning(p: seq<byte>, j: nat)
    requires j < |p|
    ensures var r := Cut(p, j);
      (r > 0 ==> p[r] == NEWLINE) && forall i :: r < i <= j ==> p[i] != NEWLINE
  {
    if j > 0 && p[j] != NEWLINE { CutMeaning(p, j - 1); }
  }

  lemma CutsStep(maxSize: nat, pos: nat, p: seq<byte>, j: nat, piece: seq<byte>, rest: seq<byte>)
    requires pos <= maxSize && pos + |p| > maxSize
    requires j == Cut(p, maxSize - pos) && piece == p[..j] && rest == p[j + 1..]
    ensures Cuts(maxSize, pos, p) == Then(piece, p[j], Cuts(maxSize, 0, rest))
  {
  }

  /** All input is accounted for, in order: the pieces written, and exactly one byte at each rotation. That byte
      is a newline whenever the search stopped above position 0, and the pieces fit the limit. */
  lemma {:induction false} NothingElseIsDropped(maxSize: nat, pos: nat, p: seq<byte>)
    requires pos <= maxSize
    ensures var plan := Cuts(maxSize, pos, p);
      Weave(plan) == p && Fitting(plan, maxSize - pos, maxSize) && CutAtLineEnds(plan)
    decreases |p|
  {
    if pos + |p| > maxSize {
      var j := Cut(p, maxSize - pos);
      var piece, rest := p[..j], p[j + 1..];
      CutMeaning(p, maxSize - pos);
      CutsStep(maxSize, pos, p, j, piece, rest);
      NothingElseIsDropped(maxSize, 0, rest);
      assert p == piece + [p[j]] + rest;
    }
  }

  /** The byte lost at the first rotation is data, not a line end, exactly when the part of the input that was
      looked at holds no newline at all: for instance a line that no longer fits the space left in the file. */
  lemma DataIsLostExactly(maxSize: nat, pos: nat, p: seq<byte>)
    requires pos <= maxSize && pos + |p| > maxSize
    ensures Cuts(maxSize, pos, p).Then?
    ensures Cuts(maxSize, pos, p).dropped != NEWLINE <==> NEWLINE !in p[..maxSize - pos + 1]
  {
    var room := maxSize - pos;
    CutMeaning(p, room);
    var j := Cut(p, room);
    assert p[..room + 1][j] == p[j];
    if p[j] != NEWLINE {
      forall i | 0 <= i <= room ensures p[i] != NEWLINE { }
    }
  }

  predicate OnlyNewlinesDropped(plan: Plan) {
    plan.Then? ==> plan.dropped == NEWLINE && OnlyNewlinesDropped(plan.next)
  }

  // Every stretch without a newline fits a whole file, and the one at the start the room that is left.
  ghost predicate LinesFit(p: seq<byte>, room: nat, maxSize: nat) {
    && (forall a, b :: 0 <= a <= b <= |p| && NEWLINE !in p[a..b] ==> b - a <= maxSize)
    && (forall b :: 0 <= b <= |p| && NEWLINE !in p[..b] ==> b <= room)
  }

  lemma FitInPieceAndRest(p: seq<byte>, piece: seq<byte>, rest: seq<byte>, room: nat, maxSize: nat)
    requires p == piece + [NEWLINE] + rest && |piece| <= room <= maxSize && LinesFit(rest, maxSize, maxSize)
    ensures LinesFit(p, room, maxSize)
  {
    var j := |piece|;
    forall a, b | 0 <= a <= j < b <= |p| ensures NEWLINE in p[a..b] { assert p[a..b][j - a] == NEWLINE; }
    forall a, b | 0 <= a <= b <= |p| && NEWLINE !in p[a..b] ensures b - a <= maxSize && (a == 0 ==> b <= room) {
      if a > j { assert p[a..b] == rest[a - j - 1..b - j - 1]; }
    }
    forall b | 0 <= b <= |p| && NEWLINE !in p[..b] ensures b <= room { assert p[0..b] == p[..b]; }
  }

  lemma FitAfterCut(p: seq<byte>, j: nat, room: nat, maxSize: nat)
    requires j < |p| && LinesFit(p, room, maxSize)
    ensures LinesFit(p[j + 1..], maxSize, maxSize)
  {
    var rest := p[j + 1..];
    forall a, b | 0 <= a <= b <= |rest| && NEWLINE !in rest[a..b] ensures b - a <= maxSize {
      assert rest[a..b] == p[j + 1 + a..j + 1 + b];
    }
    forall b | 0 <= b <= |rest| && NEWLINE !in rest[..b] ensures b <= maxSize { assert rest[..b] == rest[0..b]; }
  }

  /** A whole call loses nothing but line ends exactly when every line fits a file and the first one fits the
      room left in the open file. */
  lemma {:induction false} OnlyNewlinesDroppedExactly(maxSize: nat, pos: nat, p: seq<byte>)
    requires pos <= maxSize
    ensures OnlyNewlinesDropped(Cuts(maxSize, pos, p)) <==> LinesFit(p, maxSize - pos, maxSize)
    decreases |p|
  {
    var room := maxSize - pos;
    if |p| > room {
      var j := Cut(p, room);
      var piece, rest := p[..j], p[j + 1..];
      CutsStep(maxSize, pos, p, j, piece, rest);
      DataIsLostExactly(maxSize, pos, p);
      OnlyNewlinesDroppedExactly(maxSize, 0, rest);
      if p[j] == NEWLINE && OnlyNewlinesDropped(Cuts(maxSize, 0, rest)) {
        assert p == piece + [NEWLINE] + rest;
        FitInPieceAndRest(p, piece, rest, room, maxSize);
      }
      if LinesFit(p, room, maxSize) { FitAfterCut(p, j, room, maxSize); }
    }
  }

  // ---- What Write does -------------------------------------------------------------------

  ghost predicate Consistent(l: Log) { l.pos == |l.current| && l.pos <= l.maxSize }

  function Appended(l: Log, piece: seq<byte>): Log { l.(current := l.current + piece) }

  // The k-th rotation and all that follows.
  function Execute(l: Log, plan: Plan, env: Env, k: nat, written: nat): Result
    decreases plan
  {
    match plan
    case Last(piece) => Done(Appended(l, piece).(pos := l.pos + |piece|), written + |piece|)
    case Then(piece, _, next) =>
      if k >= env.failAt then RenameFailed(Appended(l, piece), written + |piece|)
      else Execute(Rotate(Appended(l, piece), env.stamp(k)), next, env, k + 1, written + |piece| + 1)
  }

  lemma ExecuteThen(l: Log, plan: Plan, env: Env, k: nat, written: nat, next: Log)
    requires plan.Then? && k < env.failAt && next == Rotate(Appended(l, plan.piece), env.stamp(k))
    ensures Execute(l, plan, env, k, written) == Execute(next, plan.next, env, k + 1, written + |plan.piece| + 1)
  {
  }

  // A missing file is recreated before anything is written.
  function Found(l: Log, exists': bool): Log { if exists' then l else l.(current := [], pos := 0) }

  // With the position past the limit the first slice is out of range.
  function WriteInput(l: Log, exists': bool, p: seq<byte>, env: Env): Result {
    var f := Found(l, exists');
    if f.maxSize < f.pos then Crashed else Execute(f, Cuts(f.maxSize, f.pos, p), env, 0, 0)
  }

  // What the open file holds after a call.
  function OpenFile(current: seq<byte>, plan: Plan): seq<byte>
    decreases plan
  {
    match plan case Last(piece) => current + piece case Then(_, _, next) => OpenFile([], next)
  }

  lemma {:induction false} ExecuteMeaning(l: Log, plan: Plan, env: Env, k: nat, written: nat)
    requires Consistent(l) && Fitting(plan, l.maxSize - l.pos, l.maxSize) && k + Rotations(plan) <= env.failAt
    ensures var r := Execute(l, plan, env, k, written);
      && r.Done? && r.written == written + |Weave(plan)| && Consistent(r.log)
      && r.log.path == l.path && r.log.maxSize == l.maxSize && r.log.current == OpenFile(l.current, plan)
    decreases plan
  {
    if plan.Then? {
      ExecuteMeaning(Rotate(Appended(l, plan.piece), env.stamp(k)), plan.next, env, k + 1, written + |plan.piece| + 1);
    }
  }

  /** With renames that succeed, Write reports all of its input, keeps the position within the limit and equal to
      the file's length, and leaves open the last piece (after what was there, when nothing was rotated). */
  lemma WriteMeaning(l: Log, exists': bool, p: seq<byte>, env: Env)
    requires Consistent(Found(l, exists'))
    requires var f := Found(l, exists'); Rotations(Cuts(f.maxSize, f.pos, p)) <= env.failAt
    ensures var r, f := WriteInput(l, exists', p, env), Found(l, exists');
      && r.Done? && r.written == |p| && Consistent(r.log)
      && r.log.path == l.path && r.log.maxSize == l.maxSize
      && r.log.current == OpenFile(f.current, Cuts(f.maxSize, f.pos, p))
  {
    var f := Found(l, exists');
    NothingElseIsDropped(f.maxSize, f.pos, p);
    ExecuteMeaning(f, Cuts(f.maxSize, f.pos, p), env, 0, 0);
  }

  // Input taken in when the n-th rotation is about to happen.
  function Reached(plan: Plan, n: nat): nat
    decreases plan
  {
    if n == 0 || plan.Last? then |plan.piece| else |plan.piece| + 1 + Reached(plan.next, n - 1)
  }

  lemma {:induction false} ExecuteFails(l: Log, plan: Plan, env: Env, k: nat, written: nat)
    requires k <= env.failAt
    ensures var r := Execute(l, plan, env, k, written);
      && (r.RenameFailed? <==> k + Rotations(plan) > env.failAt)
      && (r.RenameFailed? ==> r.written == written + Reached(plan, env.failAt - k))
    decreases plan
  {
    if plan.Then? && k < env.failAt {
      ExecuteFails(Rotate(Appended(l, plan.piece), env.stamp(k)), plan.next, env, k + 1, written + |plan.piece| + 1);
    }
  }

  /** Write stops with a rename's error exactly when the input needs more rotations than renames succeed; what it
      reports then is what it has put into files plus one for each rotation done. */
  lemma FailsExactly(l: Log, exists': bool, p: seq<byte>, env: Env)
    requires Consistent(Found(l, exists'))
    ensures var r, f := WriteInput(l, exists', p, env), Found(l, exists');
      var plan := Cuts(f.maxSize, f.pos, p);
      && (r.RenameFailed? <==> Rotations(plan) > env.failAt)
      && (r.RenameFailed? ==> r.written == Reached(plan, env.failAt))
  {
    var f := Found(l, exists');
    ExecuteFails(f, Cuts(f.maxSize, f.pos, p), env, 0, 0);
  }

  // Rotations from the k-th on use stamps that are new in the archive and different from each other.
  ghost predicate FreshStamps(l: Log, env: Env, k: nat, n: nat) {
    && (forall i :: k <= i < k + n ==> Archived(l, env.stamp(i)) !in l.archive)
    && (forall i, j :: k <= i < j < k + n ==> env.stamp(i) != env.stamp(j))
  }

  lemma StampsDiffer(path: string, a: string, b: string)
    requires a != b
    ensures path + "." + a != path + "." + b
  {
    assert (path + "." + a)[|path| + 1..] == a;
    assert (path + "." + b)[|path| + 1..] == b;
  }

  ghost predicate KeptAs(l: Log, stamp: string, content: seq<byte>) {
    Archived(l, stamp) in l.archive && l.archive[Archived(l, stamp)] == content
  }

  // Every file rotated out from the k-th rotation on is in the archive under its stamp.
  ghost predicate AllKept(l: Log, env: Env, k: nat, current: seq<byte>, plan: Plan)
    decreases plan
  {
    plan.Then? ==> KeptAs(l, env.stamp(k), current + plan.piece) && AllKept(l, env, k + 1, [], plan.next)
  }

  lemma {:induction false} ExecuteKeeps(l: Log, plan: Plan, env: Env, k: nat, written: nat)
    requires k + Rotations(plan) <= env.failAt && FreshStamps(l, env, k, Rotations(plan))
    ensures var r := Execute(l, plan, env, k, written);
      r.Done? && Extends(l, r.log) && AllKept(r.log, env, k, l.current, plan)
    decreases plan
  {
    if plan.Then? {
      var next := Rotate(Appended(l, plan.piece), env.stamp(k));
      assert next.archive.Keys == l.archive.Keys + {Archived(l, env.stamp(k))};
      StillFresh(l, next, env, k, Rotations(plan.next));
      ExecuteKeeps(next, plan.next, env, k + 1, written + |plan.piece| + 1);
      KeptLonger(l, next, Execute(next, plan.next, env, k + 1, written + |plan.piece| + 1).log, env, k, plan);
    }
  }

  /** With stamps that do not repeat, every rotated file is kept under its name, along with all older ones. */
  lemma EveryFileIsKept(l: Log, exists': bool, p: seq<byte>, env: Env)
    requires Consistent(Found(l, exists'))
    requires var f := Found(l, exists'); var n := Rotations(Cuts(f.maxSize, f.pos, p));
             n <= env.failAt && FreshStamps(l, env, 0, n)
    ensures var r, f := WriteInput(l, exists', p, env), Found(l, exists');
      r.Done? && Extends(l, r.log) && AllKept(r.log, env, 0, f.current, Cuts(f.maxSize, f.pos, p))
  {
    var f := Found(l, exists');
    ExecuteKeeps(f, Cuts(f.maxSize, f.pos, p), env, 0, 0);
  }

  ghost predicate Extends(l: Log, r: Log) {
    r.path == l.path &&
    forall name :: name in l.archive ==> name in r.archive && r.archive[name] == l.archive[name]
  }

  lemma KeptLonger(l: Log, next: Log, log: Log, env: Env, k: nat, plan: Plan)
    requires plan.Then? && next.path == l.path && Archived(l, env.stamp(k)) !in l.archive
    requires next.archive == l.archive[Archived(l, env.stamp(k)) := l.current + plan.piece]
    requires Extends(next, log) && AllKept(log, env, k + 1, [], plan.next)
    ensures Extends(l, log) && AllKept(log, env, k, l.current, plan)
  {
    assert KeptAs(next, env.stamp(k), l.current + plan.piece);
  }

  lemma StillFresh(l: Log, next: Log, env: Env, k: nat, n: nat)
    requires FreshStamps(l, env, k, n + 1) && next.path == l.path
    requires next.archive.Keys == l.archive.Keys + {Archived(l, env.stamp(k))}
    ensures FreshStamps(next, env, k + 1, n)
  {
    forall i | k + 1 <= i < k + 1 + n ensures Archived(next, env.stamp(i)) !in next.archive {
      assert env.stamp(k) != env.stamp(i);
      StampsDiffer(l.path, env.stamp(k), env.stamp(i));
    }
  }

  // ---- Names that repeat -----------------------------------------------------------------

  // The contents of the files rotated out, in order.
  function Outs(current: seq<byte>, plan: Plan): (outs: seq<seq<byte>>)
    ensures |outs| == Rotations(plan)
    decreases plan
  {
    match plan case Last(_) => [] case Then(piece, _, next) => [current + piece] + Outs([], next)
  }

  // The rotations whose rename succeeds.
  function Renames(plan: Plan, env: Env): nat { if Rotations(plan) <= env.failAt then Rotations(plan) else env.failAt }

  // Of the rotations from the k-th to the n-th the j-th is the last one under the name.
  ghost predicate LastUnder(l: Log, env: Env, k: nat, n: nat, name: string, j: nat) {
    k <= j < n && Archived(l, env.stamp(j)) == name && forall i :: j < i < n ==> Archived(l, env.stamp(i)) != name
  }

  // The name holds what the last rotation under it left, and what it held before when there was none.
  ghost predicate Settles(l: Log, env: Env, k: nat, n: nat, name: string, outs: seq<seq<byte>>,
                          after: map<string, seq<byte>>)
    requires n - k <= |outs|
  {
    && (forall j: nat :: LastUnder(l, env, k, n, name, j) ==> name in after && after[name] == outs[j - k])
    && ((forall j: nat :: !LastUnder(l, env, k, n, name, j)) ==>
          (name in after <==> name in l.archive) && (name in after ==> after[name] == l.archive[name]))
  }

  lemma {:induction false} LastExists(l: Log, env: Env, k: nat, n: nat, name: string, i: nat)
    requires k <= i < n && Archived(l, env.stamp(i)) == name
    ensures exists j: nat :: i <= j && LastUnder(l, env, k, n, name, j)
    decreases n - i
  {
    if m: nat :| i < m < n && Archived(l, env.stamp(m)) == name {
      LastExists(l, env, k, n, name, m);
    } else {
      assert LastUnder(l, env, k, n, name, i);
    }
  }

  lemma RotationSettles(l: Log, next: Log, env: Env, k: nat, from: nat, n: nat, name: string, content: seq<byte>,
                        rest: seq<seq<byte>>, after: map<string, seq<byte>>)
    requires k + 1 == from <= n && n - from <= |rest| && next.path == l.path
    requires next.archive == l.archive[Archived(l, env.stamp(k)) := content]
    requires Settles(next, env, from, n, name, rest, after)
    ensures Settles(l, env, k, n, name, [content] + rest, after)
  {
    forall j: nat ensures j != k ==> (LastUnder(l, env, k, n, name, j) <==> LastUnder(next, env, from, n, name, j)) {}
    if LastUnder(l, env, k, n, name, k) {
      forall j: nat ensures !LastUnder(next, env, from, n, name, j) {}
    } else if Archived(l, env.stamp(k)) == name {
      LastExists(l, env, k, n, name, k);
    } else if forall j: nat :: !LastUnder(l, env, k, n, name, j) {
      forall j: nat ensures !LastUnder(next, env, from, n, name, j) {
        assert j != k ==> !LastUnder(l, env, k, n, name, j);
      }
    }
  }

  lemma {:induction false} ExecuteSettles(l: Log, plan: Plan, env: Env, k: nat, written: nat, n: nat, name: string)
    requires k <= n && n == (if k + Rotations(plan) <= env.failAt then k + Rotations(plan) else env.failAt)
    ensures var r := Execute(l, plan, env, k, written);
      !r.Crashed? && Settles(l, env, k, n, name, Outs(l.current, plan), r.log.archive)
    decreases plan
  {
    if plan.Then? && k < env.failAt {
      var next := Rotate(Appended(l, plan.piece), env.stamp(k));
      ExecuteSettles(next, plan.next, env, k + 1, written + |plan.piece| + 1, n, name);
      RotationSettles(l, next, env, k, k + 1, n, name, l.current + plan.piece, Outs([], plan.next),
                      Execute(next, plan.next, env, k + 1, written + |plan.piece| + 1).log.archive);
    }
  }

  // The directory held the file before the call, or the i-th rotation of the call put it there.
  ghost predicate Filed(l: Log, plan: Plan, env: Env, name: string, content: seq<byte>) {
    || (name in l.archive && l.archive[name] == content)
    || exists i :: 0 <= i < Renames(plan, env) && RotatedAs(l, plan, env, name, content, i)
  }

  ghost predicate RotatedAs(l: Log, plan: Plan, env: Env, name: string, content: seq<byte>, i: nat) {
    i < Rotations(plan) && Archived(l, env.stamp(i)) == name && Outs(l.current, plan)[i] == content
  }

  // The last of the n rotations under the name, if there is one, left the contents.
  ghost predicate LeftLast(l: Log, env: Env, n: nat, name: string, content: seq<byte>, outs: seq<seq<byte>>)
    requires n <= |outs|
  {
    forall j: nat :: LastUnder(l, env, 0, n, name, j) ==> outs[j] == content
  }

  lemma SettledExactly(l: Log, env: Env, n: nat, name: string, content: seq<byte>, outs: seq<seq<byte>>,
                       after: map<string, seq<byte>>)
    requires n <= |outs| && Settles(l, env, 0, n, name, outs, after)
    requires (name in l.archive && l.archive[name] == content) || exists j: nat :: LastUnder(l, env, 0, n, name, j)
    ensures (name in after && after[name] == content) <==> LeftLast(l, env, n, name, content, outs)
  {
    if j: nat :| LastUnder(l, env, 0, n, name, j) {
      forall m: nat | LastUnder(l, env, 0, n, name, m) ensures m == j {}
      assert name in after && after[name] == outs[j];
    }
  }

  /** A name has a resolution of one second, and a rename overwrites. Over a whole Write, complete or ended by a
      failing rename: a file, older or rotated out by this call, is still there afterwards exactly when the last
      rotation under its name, if there is one, left the same contents. */
  lemma RotationOverwritesExactly(l: Log, exists': bool, p: seq<byte>, env: Env, name: string, content: seq<byte>)
    requires Consistent(Found(l, exists'))
    requires var f := Found(l, exists'); Filed(f, Cuts(f.maxSize, f.pos, p), env, name, content)
    ensures var r, f := WriteInput(l, exists', p, env), Found(l, exists');
      var plan := Cuts(f.maxSize, f.pos, p);
      && !r.Crashed?
      && ((name in r.log.archive && r.log.archive[name] == content) <==>
          LeftLast(f, env, Renames(plan, env), name, content, Outs(f.current, plan)))
  {
    var f := Found(l, exists');
    var plan := Cuts(f.maxSize, f.pos, p);
    var n := Renames(plan, env);
    ExecuteSettles(f, plan, env, 0, 0, n, name);
    if i: nat :| i < n && RotatedAs(f, plan, env, name, content, i) { LastExists(f, env, 0, n, name, i); }
    SettledExactly(f, env, n, name, content, Outs(f.current, plan), WriteInput(l, exists', p, env).log.archive);
  }

  /** Three one-letter lines, a limit of one byte, and a call that takes less than a second: the first line is
      gone. */
  lemma LinesOfOneSecondAreLost(stamp: string)
    ensures var l, env := Log("log", 1, 0, [], map[]), Env((_: nat) => stamp, 2);
      WriteInput(l, true, [65, NEWLINE, 66, NEWLINE, 67], env)
      == Done(Log("log", 1, 1, [67], map["log" + "." + stamp := [66]]), 5)
  {
    var p: seq<byte> := [65, NEWLINE, 66, NEWLINE, 67];
    CutsStep(1, 0, p, 1, [65], [66, NEWLINE, 67]);
    CutsStep(1, 0, [66, NEWLINE, 67], 1, [66], [67]);
    var l, env := Log("log", 1, 0, [], map[]), Env((_: nat) => stamp, 2);
    var l1 := Rotate(Appended(l, [65]), stamp);
    var l2 := Rotate(Appended(l1, [66]), stamp);
    ExecuteThen(l, Cuts(1, 0, p), env, 0, 0, l1);
    ExecuteThen(l1, Cuts(1, 0, [66, NEWLINE, 67]), env, 1, 2, l2);
    assert [] + [65] == [65] && [] + [66] == [66] && [] + [67] == [67];
    assert l1.archive == map["log" + "." + stamp := [65]] && l2.archive == map["log" + "." + stamp := [66]];
  }

  // ---- The object ------------------------------------------------------------------------

  class File {
    const path: string
    const maxSize: int
    var pos: nat
    // The contents of the open file, and the directory's rotated files.
    var current: seq<byte>
    var archive: map<string, seq<byte>>

    function View(): Log
      reads this
    {
      Log(path, maxSize, pos, current, archive)
    }

    // OpenRotateFile on a file with the given contents; false when the rename of an overfull file fails.
    constructor (path: string, maxSize: int, existing: seq<byte>, archive: map<string, seq<byte>>, stamp: string)
      ensures var l := Log(path, maxSize, |existing|, existing, archive);
        View() == if |existing| < maxSize then l else Rotate(l, stamp)
      ensures 0 <= maxSize ==> Consistent(View())
    {
      this.path, this.maxSize, this.archive, pos, current := path, maxSize, archive, |existing|, existing;
      if |existing| >= maxSize {
        this.archive, current, pos := archive[path + "." + stamp := existing], [], 0;
      }
    }

    // A complete write to the open file; the position is the caller's business.
    method Append(data: seq<byte>)
      modifies this`current
      ensures View() == old(View()).(current := old(View()).current + data)
    {
      current := current + data;
    }

    method AppendLast(data: seq<byte>)
      modifies this
      ensures View() == Appended(old(View()), data).(pos := old(pos) + |data|)
    {
      current := current + data;
      pos := pos + |data|;
    }

    method Reopen()
      modifies this
      ensures View() == old(View()).(current := [], pos := 0)
    {
      current, pos := [], 0;
    }

    method RotateOut(stamp: string)
      modifies this
      ensures View() == Rotate(old(View()), stamp)
    {
      archive := archive[path + "." + stamp := current];
      Reopen();
    }

    // The backward search of Write.
    method Search(p: seq<byte>) returns (j: nat)
      requires pos <= maxSize < pos + |p|
      ensures j == Cut(p, maxSize - pos)
    {
      j := maxSize - pos;
      while j > 0 && p[j] != NEWLINE
        invariant j <= maxSize - pos && Cut(p, j) == Cut(p, maxSize - pos)
      {
        j := j - 1;
      }
    }

    // Writes up to the cut, and skips the byte there, whatever it is.
    method FillUp(p: seq<byte>, ghost plan: Plan) returns (j: nat, rest: seq<byte>)
      requires pos <= maxSize < pos + |p| && plan == Cuts(maxSize, pos, p)
      modifies this`current
      ensures |rest| < |p| && plan.Then? && |plan.piece| == j && plan.next == Cuts(maxSize, 0, rest)
      ensures View() == Appended(old(View()), plan.piece)
    {
      j := Search(p);
      Append(p[..j]);
      rest := p[j + 1..];
    }

    // The loop of Write and what follows it.
    method WriteLoop(input: seq<byte>, env: Env) returns (r: Result)
      requires pos <= maxSize
      modifies this
      ensures !r.Crashed? && View() == r.log && r == Execute(old(View()), Cuts(maxSize, old(pos), input), env, 0, 0)
    {
      ghost var l, plan := View(), Cuts(maxSize, pos, input);
      ghost var result := Execute(l, plan, env, 0, 0);
      var p := input;
      var written: nat, k: nat := 0, 0;
      while pos + |p| > maxSize
        invariant pos <= maxSize && l == View() && plan == Cuts(maxSize, pos, p)
        invariant result == Execute(l, plan, env, k, written)
        decreases |p|
      {
        var j, rest := FillUp(p, plan);
        if k >= env.failAt { return RenameFailed(View(), written + j); }
        RotateOut(env.stamp(k));
        ghost var next := View();
        ExecuteThen(l, plan, env, k, written, next);
        l, plan := next, plan.next;
        p, k, written := rest, k + 1, written + j + 1;
      }
      AppendLast(p);
      return Done(View(), written + |p|);
    }

    /** Write, with underlying writes that are complete. */
    method Write(input: seq<byte>, exists': bool, env: Env) returns (r: Result)
      modifies this
      ensures !r.Crashed? ==> View() == r.log
      ensures r == WriteInput(old(View()), exists', input, env)
    {
      if !exists' { Reopen(); }
      if maxSize < pos { return Crashed; }
      r := WriteLoop(input, env);
    }
  }
}
