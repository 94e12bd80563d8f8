/** Path normalisation: one component-stack meaning, and the programs that compute it. */
module Paths {

  // ----- meaning -----

  function UntilSlash(s: string): (n: nat)
    ensures n <= |s| && (n < |s| ==> s[n] == '/') && forall i | 0 <= i < n :: s[i] != '/'
  {
    if |s| == 0 || s[0] == '/' then 0 else 1 + UntilSlash(s[1..])
  }

  /** The pieces between slashes. */
  function Split(s: string): (r: seq<string>)
    ensures |r| > 0
  {
    var n := UntilSlash(s);
    if n == |s| then [s] else [s[..n]] + Split(s[n + 1..])
  }

  /** Empty pieces and "." are dropped, ".." removes the last name if there is one. */
  function Push(stack: seq<string>, piece: string): seq<string> {
    if piece == "" || piece == "." then stack
    else if piece == ".." then (if |stack| > 0 then stack[..|stack| - 1] else stack)
    else stack + [piece]
  }

  function PushAll(stack: seq<string>, pieces: seq<string>): seq<string>
    decreases |pieces|
  {
    if |pieces| == 0 then stack else PushAll(Push(stack, pieces[0]), pieces[1..])
  }

  function Join(names: seq<string>): string {
    if |names| == 0 then ""
    else if |names| == 1 then names[0]
    else Join(names[..|names| - 1]) + "/" + names[|names| - 1]
  }

  function Names(path: string): seq<string> {
    PushAll([], Split(path))
  }

  function Normal(path: string): string {
    "/" + Join(Names(path))
  }

  // ----- normal paths stay as they are -----

  predicate IsName(s: string) {
    s != "" && s != "." && s != ".." && forall i | 0 <= i < |s| :: s[i] != '/'
  }

  predicate AreNames(names: seq<string>) {
    forall i | 0 <= i < |names| :: IsName(names[i])
  }

  lemma UntilSlashIs(s: string, n: nat)
    requires n <= |s| && (n < |s| ==> s[n] == '/') && forall i | 0 <= i < n :: s[i] != '/'
    ensures UntilSlash(s) == n
  {
  }

  lemma {:induction false} SplitPieces(s: string)
    ensures forall i | 0 <= i < |Split(s)| :: forall k | 0 <= k < |Split(s)[i]| :: Split(s)[i][k] != '/'
    decreases |s|
  {
    var n := UntilSlash(s);
    if n < |s| { SplitPieces(s[n + 1..]); }
  }

  lemma {:induction false} PushAllNames(stack: seq<string>, pieces: seq<string>)
    requires AreNames(stack) && forall i | 0 <= i < |pieces| :: forall k | 0 <= k < |pieces[i]| :: pieces[i][k] != '/'
    ensures AreNames(PushAll(stack, pieces))
    decreases |pieces|
  {
    if |pieces| > 0 { PushAllNames(Push(stack, pieces[0]), pieces[1..]); }
  }

  lemma NamesAreNames(path: string)
    ensures AreNames(Names(path))
  {
    SplitPieces(path);
    PushAllNames([], Split(path));
  }

  lemma {:induction false} PushAllKeeps(stack: seq<string>, names: seq<string>)
    requires AreNames(names)
    ensures PushAll(stack, names) == stack + names
    decreases |names|
  {
    if |names| > 0 {
      PushAllKeeps(stack + [names[0]], names[1..]);
      assert stack + names == stack + [names[0]] + names[1..];
    } else {
      assert stack + names == stack;
    }
  }

  lemma {:induction false} PushAllConcat(stack: seq<string>, a: seq<string>, b: seq<string>)
    ensures PushAll(stack, a + b) == PushAll(PushAll(stack, a), b)
    decreases |a|
  {
    if |a| == 0 {
      assert a + b == b;
    } else {
      PushAllConcat(Push(stack, a[0]), a[1..], b);
      assert (a + b)[1..] == a[1..] + b;
    }
  }

  /** Splitting at a slash. */
  lemma {:induction false} SplitConcat(s: string, t: string)
    ensures Split(s + "/" + t) == Split(s) + Split(t)
    decreases |s|
  {
    hide UntilSlash;
    var n := UntilSlash(s);
    var whole := s + "/" + t;
    UntilSlashIs(whole, n);
    assert whole[..n] == s[..n];
    if n == |s| {
      assert whole[n + 1..] == t && s[..n] == s;
    } else {
      assert whole[n + 1..] == s[n + 1..] + "/" + t;
      SplitConcat(s[n + 1..], t);
      assert [s[..n]] + (Split(s[n + 1..]) + Split(t)) == [s[..n]] + Split(s[n + 1..]) + Split(t);
    }
  }

  lemma SplitName(name: string)
    requires IsName(name)
    ensures Split(name) == [name]
  {
    UntilSlashIs(name, |name|);
  }

  lemma {:induction false} SplitJoin(names: seq<string>)
    requires AreNames(names) && |names| > 0
    ensures Split(Join(names)) == names
  {
    if |names| == 1 {
      SplitName(names[0]);
    } else {
      var k := |names| - 1;
      SplitJoin(names[..k]);
      SplitName(names[k]);
      SplitConcat(Join(names[..k]), names[k]);
      assert names == names[..k] + [names[k]];
    }
  }

  /** A leading slash does not matter, nor does a trailing one. */
  lemma SlashesIgnored(path: string)
    ensures Names("/" + path) == Names(path) && Names(path + "/") == Names(path)
  {
    SplitConcat("", path);
    assert "" + "/" + path == "/" + path && Split("") == [""];
    assert Push([], "") == [] && ([""] + Split(path))[1..] == Split(path);
    SplitConcat(path, "");
    assert path + "/" + "" == path + "/";
    PushAllConcat([], Split(path), [""]);
    assert PushAll(Names(path), [""]) == Names(path);
  }

  /** One more component: a name goes below, "." stays, ".." goes to the parent, and the root is its own parent. */
  lemma OneMore(path: string, name: string)
    requires IsName(name)
    ensures Names(path + "/" + name) == Names(path) + [name] && Names(path + "/.") == Names(path)
    ensures Names(path + "/..") == if Names(path) == [] then [] else Names(path)[..|Names(path)| - 1]
    ensures Names(path + "/" + name + "/..") == Names(path) && Names("") == []
  {
    SplitName(name);
    Component(path, name);
    Component(path, ".");
    Component(path, "..");
    Component(path + "/" + name, "..");
    assert path + "/" + "." == path + "/." && path + "/" + ".." == path + "/..";
    assert path + "/" + name + "/" + ".." == path + "/" + name + "/..";
    assert Split("") == [""] && Push([], "") == [];
  }

  lemma Component(path: string, piece: string)
    requires forall i | 0 <= i < |piece| :: piece[i] != '/'
    ensures Names(path + "/" + piece) == Push(Names(path), piece)
  {
    UntilSlashIs(piece, |piece|);
    SplitConcat(path, piece);
    PushAllConcat([], Split(path), [piece]);
    assert PushAll(Names(path), [piece]) == PushAll(Push(Names(path), piece), [piece][1..]);
  }

  /** Normalising twice changes nothing. */
  lemma NormalIdempotent(path: string)
    ensures Normal(Normal(path)) == Normal(path)
  {
    var names := Names(path);
    NamesAreNames(path);
    SlashesIgnored(Join(names));
    if |names| == 0 {
      assert Split("") == [""] && Push([], "") == [];
    } else {
      SplitJoin(names);
      PushAllKeeps([], names);
      assert [] + names == names;
    }
  }

  // ----- how long a normal path is -----

  /** The characters of all pieces, with a slash for each. */
  function Weight(pieces: seq<string>): nat {
    if |pieces| == 0 then 0 else Weight(pieces[..|pieces| - 1]) + |pieces[|pieces| - 1]| + 1
  }

  lemma {:induction false} WeightConcat(a: seq<string>, b: seq<string>)
    ensures Weight(a + b) == Weight(a) + Weight(b)
    decreases |b|
  {
    if |b| == 0 {
      assert a + b == a;
    } else {
      WeightConcat(a, b[..|b| - 1]);
      assert (a + b)[..|a + b| - 1] == a + b[..|b| - 1];
    }
  }

  lemma {:induction false} SplitWeight(s: string)
    ensures Weight(Split(s)) == |s| + 1
    decreases |s|
  {
    var n := UntilSlash(s);
    assert forall p: string :: [p][..0] == [];
    if n < |s| {
      SplitWeight(s[n + 1..]);
      WeightConcat([s[..n]], Split(s[n + 1..]));
    }
  }

  lemma {:induction false} PushAllWeight(stack: seq<string>, pieces: seq<string>)
    ensures Weight(PushAll(stack, pieces)) <= Weight(stack) + Weight(pieces)
    decreases |pieces|
  {
    if |pieces| > 0 {
      var piece := pieces[0];
      assert [piece][..0] == [] && pieces == [piece] + pieces[1..];
      WeightConcat([piece], pieces[1..]);
      WeightConcat(stack, [piece]);
      PushAllWeight(Push(stack, piece), pieces[1..]);
    }
  }

  lemma {:induction false} JoinWeight(names: seq<string>)
    requires |names| > 0
    ensures |Join(names)| + 1 == Weight(names)
  {
    if |names| == 1 {
      assert names[..0] == [];
    } else {
      JoinWeight(names[..|names| - 1]);
    }
  }

  /** A normal path is no longer than the path it comes from, plus one for a leading slash that was missing. */
  lemma NormalLength(path: string)
    ensures |path| > 0 && path[0] == '/' ==> |Normal(path)| <= |path|
    ensures |Normal(path)| <= |path| + 1
  {
    var names := Names(path);
    SplitWeight(path);
    PushAllWeight([], Split(path));
    if |names| > 0 { JoinWeight(names); }
    if |path| > 0 && path[0] == '/' {
      assert path == "/" + path[1..];
      SlashesIgnored(path[1..]);
      SplitWeight(path[1..]);
      PushAllWeight([], Split(path[1..]));
    }
  }

  /** The missing slash is needed for every relative path of names. */
  lemma RelativeGrows(names: seq<string>)
    requires AreNames(names) && |names| > 0
    ensures |Normal(Join(names))| == |Join(names)| + 1
  {
    SplitJoin(names);
    PushAllKeeps([], names);
    assert [] + names == names;
  }

  // ----- cd, ls and tree -----

  /** Pushing never needs more than `limit` slots at once. */
  ghost predicate FitsIn(stack: seq<string>, pieces: seq<string>, limit: nat)
    decreases |pieces|
  {
    |stack| <= limit && (|pieces| > 0 ==> FitsIn(Push(stack, pieces[0]), pieces[1..], limit))
  }

  /** The piece path[start..p] and what follows it. */
  lemma NextPiece(path: string, start: nat, p: nat, stack: seq<string>, limit: nat)
    requires start <= p <= |path| && (p < |path| ==> path[p] == '/') && forall i | start <= i < p :: path[i] != '/'
    ensures var next := path[if p < |path| then p + 1 else p..];
            var after := Push(stack, path[start..p]);
            PushAll(stack, Split(path[start..])) == PushAll(after, Split(next)) &&
            (FitsIn(stack, Split(path[start..]), limit) ==> FitsIn(after, Split(next), limit))
  {
    var rest := path[start..];
    var pieces := Split(rest);
    var after := Push(stack, path[start..p]);
    UntilSlashIs(rest, p - start);
    assert rest[..p - start] == path[start..p];
    if p < |path| {
      assert rest[p - start + 1..] == path[p + 1..];
      assert pieces[1..] == Split(path[p + 1..]);
    } else {
      assert rest == path[start..p] && pieces == [rest] && pieces[1..] == [];
      assert path[p..] == "" && Split("") == [""];
      if FitsIn(stack, pieces, limit) { FitsNow(after, pieces[1..], limit); }
      NothingLeft(after, limit);
    }
  }

  lemma NothingLeft(stack: seq<string>, limit: nat)
    ensures PushAll(stack, [""]) == stack && Split("") == [""] && (|stack| <= limit ==> FitsIn(stack, [""], limit))
  {
    assert Push(stack, "") == stack && [""][1..] == [];
  }

  lemma FitsNow(stack: seq<string>, pieces: seq<string>, limit: nat)
    requires FitsIn(stack, pieces, limit)
    ensures |stack| <= limit
  {
  }

  /** The loop of cd, ls and tree; `limit` is the size of the part table, 64 in cd and ls and 32 in tree. */
  method SplitPath(input: string, limit: nat) returns (parts: seq<string>)
    requires |input| < 256 && FitsIn([], Split(input), limit)
    ensures parts == Names(input) && |parts| <= limit
  {
    hide Split, PushAll, FitsIn;
    parts := [];
    var p := 0;
    assert input[0..] == input;
    if p < |input| && input[p] == '/' {
      NextPiece(input, 0, 0, [], limit);
      p := p + 1;
    }
    while p < |input|
      invariant p <= |input| && FitsIn(parts, Split(input[p..]), limit)
      invariant PushAll(parts, Split(input[p..])) == Names(input)
      decreases |input| - p
    {
      var start := p;
      while p < |input| && input[p] != '/'
        invariant start <= p <= |input| && forall i | start <= i < p :: input[i] != '/'
      {
        p := p + 1;
      }
      NextPiece(input, start, p, parts, limit);
      var part := input[start..p];
      if p < |input| {
        p := p + 1;
      }
      if part == "." || part == "" {
        continue;
      }
      if part == ".." {
        if |parts| > 0 {
          parts := parts[..|parts| - 1];
        }
        continue;
      }
      parts := parts + [part];
    }
    assert input[p..] == "";
    NothingLeft(parts, limit);
    FitsNow(parts, Split(""), limit);
  }

  method NormalizePath(input: string, limit: nat) returns (output: string)
    requires |input| < 256 && FitsIn([], Split(input), limit)
    ensures output == Normal(input) && |output| <= 256
    ensures |input| > 0 && input[0] == '/' ==> |output| <= |input| < 256
  {
    hide Split, PushAll, FitsIn, Names;
    NormalLength(input);
    var parts := SplitPath(input, limit);
    output := "/";
    for i := 0 to |parts|
      invariant output == "/" + Join(parts[..i]) + (if 0 < i < |parts| then "/" else "")
    {
      JoinSnoc(parts[..i], parts[i]);
      assert parts[..i + 1] == parts[..i] + [parts[i]];
      output := output + parts[i];
      if i < |parts| - 1 {
        output := output + "/";
      }
    }
    assert parts[..|parts|] == parts;
  }

  lemma JoinSnoc(names: seq<string>, name: string)
    ensures Join(names + [name]) == (if |names| == 0 then name else Join(names) + "/" + name)
  {
    assert (names + [name])[..|names|] == names;
  }

  // ----- the browser -----

  /** Where the k-th name starts in the output. */
  function StartOf(root: string, names: seq<string>, k: nat): nat
    requires k < |names|
  {
    |root| + |Join(names[..k])| + (if k > 0 then 1 else 0)
  }

  /** The browser's output: a root slash for absolute paths, "." for an empty relative one. */
  function BrowserNormal(path: string): string {
    var names := Names(path);
    if |path| > 0 && path[0] == '/' then Normal(path)
    else if |names| == 0 then "." else Join(names)
  }

  /** State of the browser's loop: the output buffer holds root and names, the table where each name starts. */
  ghost predicate Holds(output: array<char>, length: nat, starts: seq<nat>, root: string, names: seq<string>)
    reads output
  {
    && length <= output.Length && output[..length] == root + Join(names)
    && |starts| == |names| && (forall k: nat | k < |names| :: starts[k] == StartOf(root, names, k))
    && AreNames(names)
  }

  lemma JoinEnds(names: seq<string>)
    requires AreNames(names) && |names| > 0
    ensures |Join(names)| > 0 && Join(names)[|Join(names)| - 1] != '/'
  {
    var last := names[|names| - 1];
    assert IsName(last) && last[|last| - 1] != '/';
  }

  /** ".." cuts the output back to before the last name and its slash. */
  lemma CutBack(root: string, names: seq<string>)
    requires AreNames(names) && |names| > 0 && (root == "" || root == "/")
    ensures var k := |names| - 1;
            var cut := StartOf(root, names, k);
            var whole := root + Join(names);
            && cut <= |whole|
            && (cut > |root| && whole[cut - 1] == '/' <==> k > 0)
            && whole[..if k > 0 then cut - 1 else cut] == root + Join(names[..k])
  {
    var k := |names| - 1;
    assert names == names[..k] + [names[k]];
    JoinSnoc(names[..k], names[k]);
  }

  lemma StartsKept(root: string, names: seq<string>, k: nat, j: nat)
    requires k < j <= |names|
    ensures StartOf(root, names[..j], k) == StartOf(root, names, k)
  {
    assert names[..j][..k] == names[..k];
  }

  /** Truncates the last name away. */
  method PopName(output: array<char>, length: nat, starts: seq<nat>, root: string, ghost names: seq<string>)
    returns (next: nat, fewer: seq<nat>)
    requires (root == "" || root == "/") && |starts| > 0 && length < output.Length && Holds(output, length, starts, root, names)
    modifies output
    ensures next <= length && Holds(output, next, fewer, root, names[..|names| - 1])
  {
    hide Join, StartOf;
    ghost var k := |names| - 1;
    CutBack(root, names);
    ghost var whole := output[..length];
    next := starts[|starts| - 1];
    fewer := starts[..|starts| - 1];
    if next > |root| && output[next - 1] == '/' {
      next := next - 1;
    }
    assert output[..next] == whole[..next];
    forall j: nat | j < k ensures fewer[j] == StartOf(root, names[..k], j) { StartsKept(root, names, j, k); }
    output[next] := '\0';
    assert output[..next] == whole[..next];
  }

  /** Appends a name behind a slash, or fails when the buffer is full. */
  method PushName(output: array<char>, capacity: nat, length: nat, starts: seq<nat>, root: string, name: string,
                  ghost names: seq<string>)
    returns (ok: bool, next: nat, more: seq<nat>)
    requires (root == "" || root == "/") && 2 <= capacity <= output.Length && length < capacity
    requires Holds(output, length, starts, root, names) && IsName(name)
    modifies output
    ensures ok ==> next < capacity && Holds(output, next, more, root, names + [name])
    ensures ok ==> next == length + |name| + (if |names| > 0 then 1 else 0)
    ensures ok <==> length + |name| + (if |names| > 0 then 1 else 0) < capacity
  {
    hide Join;
    next, more := length, starts;
    ghost var before := output[..length];
    JoinSnoc(names, name);
    if |names| > 0 { JoinEnds(names); }
    if |names| == 0 { EmptyJoin(names); }
    assert length > 0 && output[length - 1] != '/' <==> |names| > 0;
    if next > 0 && output[next - 1] != '/' {
      if next >= capacity - 1 {
        return false, next, more;
      }
      output[next] := '/';
      next := next + 1;
    }
    ghost var prefix := before + (if |names| > 0 then "/" else "");
    assert output[..next] == prefix;
    more := more + [next];
    ok, next := CopyName(output, capacity, next, name);
    if ok {
      assert output[..next] == root + Join(names + [name]);
      StartsSnoc(root, names, name, starts, more);
    }
  }

  lemma EmptyJoin(names: seq<string>)
    requires |names| == 0
    ensures Join(names) == ""
  {
  }

  lemma StartsSnoc(root: string, names: seq<string>, name: string, starts: seq<nat>, more: seq<nat>)
    requires |starts| == |names| && forall k: nat | k < |names| :: starts[k] == StartOf(root, names, k)
    requires more == starts + [|root| + |Join(names)| + (if |names| > 0 then 1 else 0)]
    ensures forall k: nat | k <= |names| :: more[k] == StartOf(root, names + [name], k)
  {
    hide Join;
    var all := names + [name];
    forall k: nat | k <= |names| ensures more[k] == StartOf(root, all, k) {
      assert all[..k] == names[..k];
      if k == |names| { assert names[..k] == names; }
    }
  }

  method CopyName(output: array<char>, capacity: nat, length: nat, name: string) returns (ok: bool, next: nat)
    requires length < capacity <= output.Length
    modifies output
    ensures ok <==> length + |name| < capacity
    ensures ok ==> next == length + |name| && output[..next] == old(output[..length]) + name
  {
    next := length;
    for i := 0 to |name|
      invariant next == length + i < capacity
      invariant output[..next] == old(output[..length]) + name[..i]
    {
      if next >= capacity - 1 {
        return false, next;
      }
      output[next] := name[i];
      next := next + 1;
      assert output[..next] == old(output[..length]) + name[..i] + [name[i]];
    }
    output[next] := '\0';
    ok := true;
  }

  /** Every name pushed finds one of 128 places in the table and room in the buffer for all names so far. */
  ghost predicate Roomy(stack: seq<string>, pieces: seq<string>, root: string, capacity: nat)
    decreases |pieces|
  {
    |pieces| == 0 ||
    (var next := Push(stack, pieces[0]);
     && (|next| > |stack| ==> |stack| < 128 && |root| + |Join(next)| < capacity)
     && Roomy(next, pieces[1..], root, capacity))
  }

  lemma RoomyPiece(path: string, start: nat, p: nat, stack: seq<string>, root: string, capacity: nat)
    requires start <= p <= |path| && (p < |path| ==> path[p] == '/') && forall i | start <= i < p :: path[i] != '/'
    ensures var next := Push(stack, path[start..p]);
            Roomy(stack, Split(path[start..]), root, capacity) <==>
            && (|next| > |stack| ==> |stack| < 128 && |root| + |Join(next)| < capacity)
            && Roomy(next, Split(path[p..]), root, capacity)
  {
    hide Join;
    var rest := path[start..];
    var next := Push(stack, path[start..p]);
    UntilSlashIs(rest, p - start);
    assert rest[..p - start] == path[start..p];
    if p < |path| {
      assert rest[p - start + 1..] == path[p + 1..];
      assert Split(rest)[1..] == Split(path[p + 1..]);
      RoomySlash(path, p, next, root, capacity);
    } else {
      assert rest == path[start..p] && Split(rest) == [rest] && Split(rest)[1..] == [];
      assert path[p..] == "" && Split("") == [""] && [""][1..] == [] && Push(next, "") == next;
    }
  }

  lemma RoomySlash(path: string, p: nat, stack: seq<string>, root: string, capacity: nat)
    requires p < |path| && path[p] == '/'
    ensures Roomy(stack, Split(path[p..]), root, capacity) == Roomy(stack, Split(path[p + 1..]), root, capacity)
  {
    hide Join;
    var rest := path[p..];
    UntilSlashIs(rest, 0);
    assert rest[..0] == "" && rest[1..] == path[p + 1..];
    assert Split(rest)[0] == "" && Split(rest)[1..] == Split(path[p + 1..]);
  }

  function RootOf(path: string): string {
    if |path| > 0 && path[0] == '/' then "/" else ""
  }

  /** Normalises into a buffer of `capacity` characters with room for 128 names, and fails exactly when one of the two
      runs out; both suffice for every path shorter than the buffer that never has more names at once. */
  method NormalizeLocalPath(path: string, output: array<char>, capacity: nat) returns (ok: bool, length: nat)
    requires 2 <= capacity <= output.Length
    modifies output
    ensures ok ==> length < output.Length && output[..length] == BrowserNormal(path) && output[length] == '\0'
    ensures ok <==> Roomy([], Split(path), RootOf(path), capacity)
    ensures |path| < capacity && FitsIn([], Split(path), 128) ==> ok
  {
    hide Split, PushAll, FitsIn, Roomy, Join, Holds, AreNames;
    var root := RootOf(path);
    length := 0;
    if root == "/" {
      output[0] := '/';
      length := 1;
    }
    var starts: seq<nat> := [];
    ghost var names: seq<string> := [];
    var index := 0;
    StartHolds(output, length, root);
    assert path[0..] == path;
    ghost var fits := |path| < capacity && FitsIn([], Split(path), 128);
    while index < |path|
      invariant index <= |path| && length < capacity && Holds(output, length, starts, root, names) && |starts| <= 128
      invariant PushAll(names, Split(path[index..])) == Names(path)
      invariant fits ==> FitsIn(names, Split(path[index..]), 128)
      invariant Roomy(names, Split(path[index..]), root, capacity) == Roomy([], Split(path), root, capacity)
      invariant length <= index || (index == 0 && length == |root|)
      invariant index > 0 ==> index == |path| || path[index] == '/'
      invariant |names| == |starts| && (index == 0 ==> names == [])
      decreases |path| - index
    {
      ghost var from := index;
      var start := SkipSlashes(path, index, names, 128, root, capacity);
      index := start;
      while index < |path| && path[index] != '/'
        invariant start <= index <= |path| && forall i | start <= i < index :: path[i] != '/'
      {
        index := index + 1;
      }
      var name := path[start..index];
      NextPiece(path, start, index, names, 128);
      SkipOne(path, index, Push(names, name), 128);
      RoomyPiece(path, start, index, names, root, capacity);
      if name == "" || name == "." {
        continue;
      }
      if name == ".." {
        if |starts| > 0 {
          length, starts := PopName(output, length, starts, root, names);
          names := names[..|names| - 1];
          HoldsCounts(output, length, starts, root, names);
        }
        continue;
      }
      if fits { FitsNow(names + [name], Split(path[index..]), 128); }
      NeedOf(output, length, starts, root, names, name);
      if |starts| >= 128 {
        return false, length;
      }
      var pushed;
      pushed, length, starts := PushName(output, capacity, length, starts, root, name, names);
      if !pushed {
        return false, length;
      }
      names := names + [name];
      HoldsCounts(output, length, starts, root, names);
    }
    assert path[index..] == "";
    NothingLeft(names, 128);
    RoomyEnd(names, root, capacity);
    ok := true;
    assert output[..length] == root + Join(names) by { HoldsText(output, length, starts, root, names); }
    EmptyIff(output, length, starts, root, names);
    if length == 0 {
      output[0] := '.';
      length := 1;
      assert output[..1] == ".";
    }
    ghost var text := output[..length];
    output[length] := '\0';
    assert output[..length] == text;
  }

  lemma NeedOf(output: array<char>, length: nat, starts: seq<nat>, root: string, names: seq<string>, name: string)
    requires Holds(output, length, starts, root, names)
    ensures |root| + |Join(names + [name])| == length + |name| + (if |names| > 0 then 1 else 0)
  {
    JoinSnoc(names, name);
    assert |output[..length]| == length;
  }

  lemma RoomyEnd(stack: seq<string>, root: string, capacity: nat)
    ensures Roomy(stack, Split(""), root, capacity)
  {
    hide Join;
    assert Split("") == [""] && [""][1..] == [] && Push(stack, "") == stack;
  }

  lemma StartHolds(output: array<char>, length: nat, root: string)
    requires output.Length >= 2 && length == |root| && (root == "" || (root == "/" && output[0] == '/'))
    ensures Holds(output, length, [], root, [])
  {
  }

  lemma HoldsCounts(output: array<char>, length: nat, starts: seq<nat>, root: string, names: seq<string>)
    requires Holds(output, length, starts, root, names)
    ensures |starts| == |names|
  {
  }

  lemma HoldsText(output: array<char>, length: nat, starts: seq<nat>, root: string, names: seq<string>)
    requires Holds(output, length, starts, root, names)
    ensures length <= output.Length && output[..length] == root + Join(names)
  {
  }

  lemma EmptyIff(output: array<char>, length: nat, starts: seq<nat>, root: string, names: seq<string>)
    requires Holds(output, length, starts, root, names)
    ensures length == 0 <==> root == "" && |names| == 0
  {
    if |names| > 0 { JoinEnds(names); }
  }

  /** Slashes between names add nothing. */
  method SkipSlashes(path: string, from: nat, ghost names: seq<string>, ghost limit: nat, ghost root: string,
                     ghost capacity: nat)
    returns (start: nat)
    requires from <= |path|
    ensures from <= start <= |path| && (start < |path| ==> path[start] != '/')
    ensures from < |path| && path[from] == '/' ==> start > from
    ensures PushAll(names, Split(path[start..])) == PushAll(names, Split(path[from..]))
    ensures FitsIn(names, Split(path[from..]), limit) ==> FitsIn(names, Split(path[start..]), limit)
    ensures Roomy(names, Split(path[start..]), root, capacity) == Roomy(names, Split(path[from..]), root, capacity)
  {
    hide Split, PushAll, FitsIn, Roomy;
    start := from;
    while start < |path| && path[start] == '/'
      invariant from <= start <= |path| && (from < |path| && path[from] == '/' && start == from ==> path[start] == '/')
      invariant PushAll(names, Split(path[start..])) == PushAll(names, Split(path[from..]))
      invariant FitsIn(names, Split(path[from..]), limit) ==> FitsIn(names, Split(path[start..]), limit)
      invariant Roomy(names, Split(path[start..]), root, capacity) == Roomy(names, Split(path[from..]), root, capacity)
    {
      RoomySlash(path, start, names, root, capacity);
      SkipOne(path, start, names, limit);
      start := start + 1;
    }
  }

  lemma SkipOne(path: string, p: nat, stack: seq<string>, limit: nat)
    requires p <= |path|
    ensures p < |path| && path[p] == '/' ==>
              PushAll(stack, Split(path[p..])) == PushAll(stack, Split(path[p + 1..])) &&
              (FitsIn(stack, Split(path[p..]), limit) <==> FitsIn(stack, Split(path[p + 1..]), limit))
  {
    if p < |path| && path[p] == '/' {
      var rest := path[p..];
      UntilSlashIs(rest, 0);
      assert rest[..0] == "" && rest[1..] == path[p + 1..];
      assert Split(rest)[0] == "" && Split(rest)[1..] == Split(path[p + 1..]);
      if FitsIn(stack, Split(path[p + 1..]), limit) { FitsNow(stack, Split(path[p + 1..]), limit); }
    }
  }
}
