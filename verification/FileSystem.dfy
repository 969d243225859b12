/** Path splitting and joining, and `mkdir -p`, of src/FileSystem.c: loops over character buffers that end at
    the first NUL. */
module FileSystem {
  import opened CTypes

  const PATH_LENGTH: nat := 4096
  const NUL: char := '\0'

  datatype Status = Success | InsufficientSize

  // ---------------------------------------------------------------------------
  // C strings
  // ---------------------------------------------------------------------------

  /** Where the string in a buffer ends. */
  function StrLen(b: seq<char>): (n: nat)
    ensures n <= |b| && (n < |b| ==> b[n] == NUL)
    ensures forall i | 0 <= i < n :: b[i] != NUL
  {
    if b == [] || b[0] == NUL then 0 else 1 + StrLen(b[1..])
  }

  function Str(b: seq<char>): string {
    b[..StrLen(b)]
  }

  lemma StrLenIs(b: seq<char>, n: nat)
    requires n < |b| && b[n] == NUL && forall i | 0 <= i < n :: b[i] != NUL
    ensures StrLen(b) == n && Str(b) == b[..n]
  {
  }

  /** strncpy to a buffer's start: at most n characters, and NULs up to n. */
  method CopyN(dst: array<char>, src: string, n: nat)
    requires n <= dst.Length
    modifies dst
    ensures dst[..] == src[..Min(|src|, n)] + seq(n - Min(|src|, n), _ => NUL) + old(dst[n..])
  {
    forall i | 0 <= i < n {
      dst[i] := if i < |src| then src[i] else NUL;
    }
  }

  // ---------------------------------------------------------------------------
  // Joining
  // ---------------------------------------------------------------------------

  /** A path with a name behind it: one delimiter between the two, unless the path is empty, ends in one, or
      is of the greatest length. */
  function Joined(path: string, toAdd: string): string {
    if NeedsDelimiter(path) then path + "/" + toAdd else path + toAdd
  }

  predicate NeedsDelimiter(path: string) {
    0 < |path| < PATH_LENGTH - 1 && path[|path| - 1] != '/'
  }

  /** The code's test, made before it knows whether a delimiter is needed. */
  predicate Accepted(path: string, toAdd: string, size: int) {
    |path| + |toAdd| < size - 1
  }

  /** Whether the joined path and its NUL have room in the buffer. */
  predicate HasRoom(path: string, toAdd: string, size: int) {
    |Joined(path, toAdd)| + 1 <= size
  }

  /** What is accepted has room, and what has room is accepted, except for a join without a delimiter that
      fills the buffer. */
  lemma AcceptedHasRoom(path: string, toAdd: string, size: int)
    ensures Accepted(path, toAdd, size) ==> HasRoom(path, toAdd, size)
    ensures (HasRoom(path, toAdd, size) ==> Accepted(path, toAdd, size))
        <==> NeedsDelimiter(path) || |path| + |toAdd| != size - 1
  {
    assert |Joined(path, toAdd)| == |path| + |toAdd| + if NeedsDelimiter(path) then 1 else 0;
  }

  /** Such a join: four characters and a NUL do not go into an empty buffer of five. */
  lemma RefusedWithRoom()
    ensures HasRoom("", "abcd", 5) && !Accepted("", "abcd", 5)
    ensures HasRoom("/", "abc", 5) && !Accepted("/", "abc", 5)
  {
  }

  /** FileSystem_implode, for a buffer of `size` characters. */
  method Implode(path: array<char>, size: int, toAdd: string) returns (status: Status)
    requires 1 <= size <= path.Length && NUL in path[..] && NUL !in toAdd
    modifies path
    ensures status == Success <==> Accepted(old(Str(path[..])), toAdd, size)
    ensures status == Success ==> Str(path[..]) == Joined(old(Str(path[..])), toAdd) && path[size..] == old(path[size..])
    ensures status != Success ==> path[..] == old(path[..])
  {
    ghost var before := path[..];
    var pathLen := StrLen(path[..]);
    var toAddLen := Min(|toAdd|, size - 1);
    if pathLen + toAddLen >= size - 1 {
      return InsufficientSize;
    }
    var end := pathLen;
    if pathLen > 0 && pathLen < PATH_LENGTH - 1 {
      if path[pathLen - 1] != '/' {
        path[pathLen] := '/';
        path[pathLen + 1] := NUL;
        end := pathLen + 1;
      }
    }
    ghost var front := path[..end];
    assert Joined(Str(before), toAdd) == front + toAdd && forall i | 0 <= i < end :: front[i] != NUL;
    Concat(path, end, toAdd);
    assert path[size..] == before[size..];
    return Success;
  }

  /** strncat of a whole string behind the `end` characters that a buffer holds. */
  method Concat(path: array<char>, end: nat, toAdd: string)
    requires end + |toAdd| < path.Length && (forall i | 0 <= i < end :: path[i] != NUL) && NUL !in toAdd
    modifies path
    ensures Str(path[..]) == old(path[..end]) + toAdd
    ensures forall i | end + |toAdd| < i < path.Length :: path[i] == old(path[i])
  {
    forall i | end <= i < end + |toAdd| {
      path[i] := toAdd[i - end];
    }
    path[end + |toAdd|] := NUL;
    assert path[..end + |toAdd|] == old(path[..end]) + toAdd;
    StrLenIs(path[..], end + |toAdd|);
  }

  // ---------------------------------------------------------------------------
  // Splitting
  // ---------------------------------------------------------------------------

  /** A path without the delimiters at its end; a single one alone stays. */
  function Trimmed(path: string): (t: string)
    ensures |t| <= |path| && t == path[..|t|] && (path != "" ==> t != "")
    ensures |t| > 1 ==> t[|t| - 1] != '/'
  {
    if |path| > 1 && path[|path| - 1] == '/' then Trimmed(path[..|path| - 1]) else path
  }

  /** The last delimiter's position, or -1. */
  function LastSlash(s: string): (i: int)
    ensures -1 <= i < |s| && (0 <= i ==> s[i] == '/')
    ensures forall k | i < k < |s| :: s[k] != '/'
  {
    if s == "" then -1 else if s[|s| - 1] == '/' then |s| - 1 else LastSlash(s[..|s| - 1])
  }

  /** Branch and leaf of a path. */
  function Split(path: string): (string, string) {
    var t := Trimmed(path);
    var i := LastSlash(t);
    if i < 0 then (".", t) else if i == 0 then ("/", t[1..]) else (t[..i], t[i + 1..])
  }

  lemma LastSlashIs(s: string, i: int)
    requires -1 <= i < |s| && (0 <= i ==> s[i] == '/') && forall k | i < k < |s| :: s[k] != '/'
    ensures LastSlash(s) == i
  {
  }

  lemma SplitAt(path: string, i: nat)
    requires i + 1 < |path| && path[i] == '/' && forall k | i < k < |path| :: path[k] != '/'
    ensures Trimmed(path) == path && LastSlash(path) == i
    ensures Split(path) == (if i == 0 then "/" else path[..i], path[i + 1..])
  {
    hide LastSlash, Trimmed;
    NothingToTrim(path);
    LastSlashIs(path, i);
  }

  lemma NothingToTrim(path: string)
    requires path != "" && path[|path| - 1] != '/'
    ensures Trimmed(path) == path
  {
  }

  /** Splitting what was joined. */
  lemma SplitJoined(branch: string, leaf: string)
    requires branch != "" && (branch == "/" || branch[|branch| - 1] != '/') && |branch| < PATH_LENGTH - 1
    requires leaf != "" && '/' !in leaf
    ensures Split(Joined(branch, leaf)) == (branch, leaf)
    ensures |branch| + |leaf| < PATH_LENGTH - 1 ==> Kept(Joined(branch, leaf)) == Joined(branch, leaf)
  {
    hide Split, Trimmed, LastSlash;
    var front := if branch == "/" then "" else branch;
    var path, i := front + "/" + leaf, |front|;
    assert Joined(branch, leaf) == path;
    assert forall k | i < k < |path| :: path[k] == leaf[k - i - 1];
    SplitAt(path, i);
    assert path[..i] == front && path[i + 1..] == leaf;
  }

  /** The other paths: a delimiter at the end makes no difference, and without any the branch is the current
      directory. */
  lemma SplitOthers(path: string)
    requires path != ""
    ensures Split(path + "/") == Split(path)
    ensures '/' !in path ==> Split(path) == (".", path)
    ensures Split("/") == ("/", "")
  {
    hide LastSlash;
    assert (path + "/")[..|path|] == path;
    if '/' !in path {
      NothingToTrim(path);
      LastSlashIs(path, -1);
    }
    LastSlashIs("/", 0);
    assert "/"[1..] == "";
  }

  /** One delimiter is put in where there is none. */
  lemma JoinedExamples()
    ensures Joined("a", "b") == "a/b" && Joined("a/", "b") == "a/b" && Joined("/", "b") == "/b" && Joined("", "b") == "b"
  {
  }

  lemma JoinedAt(t: string, i: nat)
    requires 0 < i < |t| < PATH_LENGTH && t[i] == '/'
    ensures Joined(t[..i], t[i + 1..]) == t <==> t[i - 1] != '/'
  {
    assert t == t[..i] + "/" + t[i + 1..];
    assert |t[..i] + t[i + 1..]| < |t|;
  }

  lemma JoinedFront(t: string)
    ensures |Joined(".", t)| == |t| + 2
    ensures t != "" && t[0] == '/' ==> Joined("/", t[1..]) == t
  {
  }

  /** Joining what was split gives the path back, without delimiters at its end, if and only if the path has a
      delimiter elsewhere and only one in that place. */
  lemma JoinedSplit(path: string)
    requires path != "" && |path| < PATH_LENGTH
    ensures var (branch, leaf) := Split(path); var t := Trimmed(path); var i := LastSlash(t);
            Joined(branch, leaf) == t <==> i == 0 || (0 < i && t[i - 1] != '/')
  {
    hide LastSlash, Trimmed, Joined;
    var t := Trimmed(path);
    var i := LastSlash(t);
    JoinedFront(t);
    if 0 < i {
      JoinedAt(t, i);
    }
  }

  /** The part of a path that is looked at. */
  function Kept(path: string): string {
    path[..Min(|path|, PATH_LENGTH - 1)]
  }

  /** The first loop of FileSystem_decomposePath: trailing delimiters are cut off the copy. */
  method CutEnd(path: string) returns (t: string)
    requires path != ""
    ensures t == Trimmed(Kept(path)) && t != ""
  {
    hide Trimmed;
    var pathCopy := new char[PATH_LENGTH](_ => NUL);
    var pathLen := Min(|path|, PATH_LENGTH - 1);
    forall k | 0 <= k < pathLen {
      pathCopy[k] := path[k];
    }
    ghost var kept := Kept(path);
    assert kept[..pathLen] == kept;
    while pathCopy[pathLen - 1] == '/' && pathLen > 1
      invariant 1 <= pathLen <= |kept| && forall k | 0 <= k < pathLen :: pathCopy[k] == kept[k]
      invariant Trimmed(kept[..pathLen]) == Trimmed(kept)
      decreases pathLen
    {
      TrimAt(kept, pathLen);
      pathCopy[pathLen - 1] := NUL;
      pathLen := pathLen - 1;
    }
    t := pathCopy[..pathLen];
    TrimAt(kept, pathLen);
    assert t == kept[..pathLen];
  }

  /** The second: the last delimiter is looked for. */
  method FindSlash(t: string) returns (i: int)
    ensures i == LastSlash(t)
  {
    i := |t| - 1;
    while i >= 0
      invariant -1 <= i < |t| && forall k | i < k < |t| :: t[k] != '/'
    {
      if t[i] == '/' {
        break;
      }
      i := i - 1;
    }
    LastSlashIs(t, i);
  }

  lemma TrimAt(s: string, n: nat)
    requires 0 < n <= |s|
    ensures n > 1 && s[n - 1] == '/' ==> Trimmed(s[..n]) == Trimmed(s[..n - 1])
    ensures !(n > 1 && s[n - 1] == '/') ==> Trimmed(s[..n]) == s[..n]
  {
    assert s[..n][..n - 1] == s[..n - 1];
  }

  /** What a copy into a buffer of NULs leaves there. */
  lemma Holds(buffer: seq<char>, src: string)
    requires |src| < |buffer| && NUL !in src && buffer[..|src|] == src && buffer[|src|] == NUL
    ensures Str(buffer) == src
  {
    StrLenIs(buffer, |src|);
  }

  /** What is split, and where its last delimiter is. */
  function Core(path: string): string {
    Trimmed(Kept(path))
  }

  function Cut(path: string): (i: int)
    ensures -1 <= i < |Core(path)|
  {
    LastSlash(Core(path))
  }

  /** The highest index of the branch buffer, and of the leaf buffer, that is written unchecked. */
  function BranchTop(i: int): int {
    if i < 0 then 1 else if i > 0 then i else -1
  }

  function LeafTop(t: string, i: int): int {
    if i < 0 then -1 else |t| - 2
  }

  /** The branch buffer afterwards: behind the NUL that is written nothing changes. A delimiter in front is
      put behind what the buffer held, if it fits. */
  ghost predicate BranchFilled(t: string, i: int, before: seq<char>, after: seq<char>)
    requires -1 <= i < |t|
  {
    && |after| == |before|
    && var top := BranchTop(i);
       if i != 0 then
         && top < |after| && after[top] == NUL && after[top + 1..] == before[top + 1..]
         && Str(after) == if i < 0 then "." else t[..i]
       else if BranchTooSmall(i, before) then after == before
       else
         var end := StrLen(before);
         Str(after) == Str(before) + "/" && after[end + 1] == NUL && after[end + 2..] == before[end + 2..]
  }

  predicate BranchTooSmall(i: int, before: seq<char>) {
    i == 0 && StrLen(before) >= |before| - 1
  }

  /** The leaf buffer afterwards. A delimiter in front leaves no room for a NUL in what is copied, so that the
      leaf ends where the buffer's old content does, if it ends at all. */
  ghost predicate LeafFilled(t: string, i: int, before: seq<char>, after: seq<char>)
    requires -1 <= i < |t|
  {
    && |after| == |before|
    && var top := LeafTop(t, i);
       if i < 0 then if LeafTooSmall(t, i, before) then after == before else Str(after) == t && Padded(|t|, before, after)
       else
         && top < |after| && after[top + 1..] == before[top + 1..]
         && (0 <= top ==> after[top] == if i == 0 then t[top + 1] else NUL)
         && Str(after) == (if i > 0 then t[i + 1..] else t[1..] + Str(before[top + 1..]))
         && (i == 0 ==> (NUL in after <==> NUL in before[top + 1..]))
  }

  /** The NULs behind n characters copied: all that is left of the buffer, but its last character. */
  ghost predicate Padded(n: nat, before: seq<char>, after: seq<char>)
    requires n < |after| == |before|
  {
    var last := |after| - 1;
    (forall k | n <= k < last :: after[k] == NUL) && after[last] == if n == last then NUL else before[last]
  }

  predicate LeafTooSmall(t: string, i: int, before: seq<char>) {
    i < 0 && |before| <= |t|
  }

  /** The two checks refuse exactly what has no room, with its NUL. */
  lemma TooSmallExact(t: string, before: seq<char>)
    ensures BranchTooSmall(0, before) <==> |before| < |Str(before) + "/"| + 1
    ensures LeafTooSmall(t, -1, before) <==> |before| < |t| + 1
  {
  }

  /** The branch half of FileSystem_decomposePath. */
  method FillBranch(t: string, i: int, branch: array<char>) returns (status: Status)
    requires -1 <= i < |t| && NUL !in t && BranchTop(i) < branch.Length && (i == 0 ==> NUL in branch[..])
    modifies branch
    ensures status == InsufficientSize <==> BranchTooSmall(i, old(branch[..]))
    ensures BranchFilled(t, i, old(branch[..]), branch[..])
  {
    if i < 0 {
      CopyN(branch, ".", 1);
      branch[1] := NUL;
      Holds(branch[..], ".");
    } else if i > 0 {
      CopyN(branch, t, i);
      branch[i] := NUL;
      Holds(branch[..], t[..i]);
    } else {
      var bLen := StrLen(branch[..]);
      if bLen >= branch.Length - 1 {
        return InsufficientSize;
      }
      ghost var front := branch[..bLen];
      branch[bLen] := '/';
      branch[bLen + 1] := NUL;
      assert forall k | 0 <= k < bLen :: front[k] != NUL;
      Holds(branch[..], front + "/");
    }
    return Success;
  }

  /** The leaf half. */
  method FillLeaf(t: string, i: int, leaf: array<char>) returns (status: Status)
    requires -1 <= i < |t| && NUL !in t && LeafTop(t, i) < leaf.Length
    modifies leaf
    ensures status == InsufficientSize <==> LeafTooSmall(t, i, old(leaf[..]))
    ensures LeafFilled(t, i, old(leaf[..]), leaf[..])
  {
    hide Padded, StrLen;
    if i < 0 {
      if leaf.Length <= |t| {
        return InsufficientSize;
      }
      CopyWhole(t, leaf);
    } else {
      ghost var rest := leaf[|t| - 1..];
      CopyN(leaf, t[i + 1..], |t| - 1);
      assert leaf[|t| - 1..] == rest;
      if i > 0 {
        Holds(leaf[..], t[i + 1..]);
      } else {
        assert leaf[..] == t[1..] + rest;
        EndsLater(t[1..], rest);
      }
    }
    return Success;
  }

  /** A path without delimiters goes into the leaf buffer, and NULs behind it. */
  method CopyWhole(t: string, leaf: array<char>)
    requires NUL !in t && |t| < leaf.Length
    modifies leaf
    ensures Str(leaf[..]) == t && Padded(|t|, old(leaf[..]), leaf[..])
  {
    CopyN(leaf, t, leaf.Length - 1);
    assert leaf[leaf.Length - 1] == old(leaf[leaf.Length - 1..])[0];
    leaf[|t|] := NUL;
    Holds(leaf[..], t);
  }

  lemma {:induction false} EndsLater(front: string, rest: seq<char>)
    requires NUL !in front
    ensures Str(front + rest) == front + Str(rest)
    ensures NUL in front + rest <==> NUL in rest
  {
    var n := |front| + StrLen(rest);
    StrLenUpTo(front + rest, n);
    assert (front + rest)[..n] == front + rest[..StrLen(rest)];
  }

  lemma StrLenUpTo(b: seq<char>, n: nat)
    requires n <= |b| && (n < |b| ==> b[n] == NUL) && forall i | 0 <= i < n :: b[i] != NUL
    ensures StrLen(b) == n
  {
  }

  /** FileSystem_decomposePath, on buffers of any content that are long enough where the code does not look. */
  method Decompose(path: string, branch: array?<char>, leaf: array?<char>) returns (status: Status)
    requires path != "" && NUL !in path && (branch != leaf || branch == null)
    requires branch != null ==>
               BranchTop(Cut(path)) < branch.Length && (Cut(path) == 0 ==> NUL in branch[..])
    requires leaf != null ==> LeafTop(Core(path), Cut(path)) < leaf.Length
    modifies branch, leaf
    ensures status == InsufficientSize <==>
              || (branch != null && BranchTooSmall(Cut(path), old(branch[..])))
              || (leaf != null && LeafTooSmall(Core(path), Cut(path), old(leaf[..])))
    ensures branch != null ==> BranchFilled(Core(path), Cut(path), old(branch[..]), branch[..])
    ensures leaf != null ==>
              if branch != null && BranchTooSmall(Cut(path), old(branch[..])) then leaf[..] == old(leaf[..])
              else LeafFilled(Core(path), Cut(path), old(leaf[..]), leaf[..])
  {
    hide BranchFilled, LeafFilled, Trimmed, LastSlash, Kept, Str, StrLen, BranchTop, LeafTop;
    KeptHasNoNul(path);
    var t := CutEnd(path);
    var i := FindSlash(t);
    status := Success;
    if branch != null {
      status := FillBranch(t, i, branch);
      if status == InsufficientSize {
        return;
      }
    }
    if leaf != null {
      status := FillLeaf(t, i, leaf);
    }
  }

  ghost predicate Blank(b: seq<char>) {
    forall k | 0 <= k < |b| :: b[k] == NUL
  }

  /** When the buffers hold branch and leaf as documented: always, unless the last delimiter is in front; and
      then just if the branch buffer held an empty string, and the leaf buffer one behind what is copied. */
  lemma FilledIsSplit(path: string, branch: seq<char>, branch': seq<char>, leaf: seq<char>, leaf': seq<char>)
    requires path != "" && BranchFilled(Core(path), Cut(path), branch, branch')
    requires LeafFilled(Core(path), Cut(path), leaf, leaf')
    requires !BranchTooSmall(Cut(path), branch) && !LeafTooSmall(Core(path), Cut(path), leaf)
    ensures Str(branch') == Split(Kept(path)).0 <==> Cut(path) != 0 || Str(branch) == ""
    ensures Str(leaf') == Split(Kept(path)).1 <==> Cut(path) != 0 || Str(leaf[|Core(path)| - 1..]) == ""
  {
    hide Trimmed, LastSlash, Kept;
    assert Str(branch) != "" ==> |Str(branch) + "/"| != |"/"|;
    assert Str(branch) == "" ==> Str(branch) + "/" == "/";
    var t := Core(path);
    if Cut(path) == 0 {
      var rest := Str(leaf[|t| - 1..]);
      assert if rest == "" then t[1..] + rest == t[1..] else |t[1..] + rest| != |t[1..]|;
    }
  }

  /** The documentation's example has zeroed buffers, which meet both conditions. */
  lemma BlankIsEmpty(b: seq<char>, n: nat)
    requires Blank(b) && n <= |b|
    ensures Str(b) == "" && Str(b[n..]) == ""
  {
  }

  /** Both ways on real buffers: what was joined in one is split into two others. */
  method JoinAndSplit(path: array<char>, size: int, name: string, branch: array<char>, leaf: array<char>)
      returns (joined: Status, split: Status)
    requires 1 <= size <= path.Length && size <= PATH_LENGTH && NUL in path[..] && NUL !in name
    requires path != branch && path != leaf && branch != leaf
    requires branch.Length >= PATH_LENGTH && leaf.Length >= PATH_LENGTH && Blank(branch[..]) && Blank(leaf[..])
    requires name != "" && '/' !in name && Accepted(Str(path[..]), name, size)
    requires var b := Str(path[..]); b == "/" || (b != "" && b[|b| - 1] != '/')
    modifies path, branch, leaf
    ensures joined == split == Success
    ensures Str(branch[..]) == old(Str(path[..])) && Str(leaf[..]) == name
  {
    hide Trimmed, LastSlash, BranchFilled, LeafFilled, StrLen, Blank;
    ghost var b, before, before' := Str(path[..]), branch[..], leaf[..];
    joined := Implode(path, size, name);
    var p := path[..StrLen(path[..])];
    JoinedCut(b, name);
    BlankIsEmpty(before, 0);
    BlankIsEmpty(before', |p| - 1);
    split := Decompose(p, branch, leaf);
    FilledIsSplit(p, before, branch[..], before', leaf[..]);
  }

  /** Where a joined path is cut. */
  lemma JoinedCut(b: string, name: string)
    requires name != "" && '/' !in name && |b| + |name| < PATH_LENGTH - 1
    requires b == "/" || (b != "" && b[|b| - 1] != '/')
    ensures var p := Joined(b, name);
            && Kept(p) == p && Core(p) == p && Cut(p) == (if b == "/" then 0 else |b|) && Split(p) == (b, name)
            && 1 < |p| < PATH_LENGTH
  {
    hide Split, Trimmed, LastSlash;
    SplitJoined(b, name);
    var p, i := Joined(b, name), if b == "/" then 0 else |b|;
    assert p[i + 1..] == name;
    assert forall k | i < k < |p| :: p[k] == name[k - i - 1];
    CutAt(p, i);
  }

  /** A path whose last delimiter is at i, with one name behind it. */
  lemma CutAt(path: string, i: nat)
    requires i + 1 < |path| < PATH_LENGTH && path[i] == '/' && forall k | i < k < |path| :: path[k] != '/'
    ensures Core(path) == path && Cut(path) == i
  {
    assert Kept(path) == path;
    SplitAt(path, i);
  }

  /** Buffers that every path fits, and so the sizes that a caller has to see to: 4094 characters are
      enough for what is written unchecked, and nothing less is. */
  lemma SizeForAll(n: nat)
    ensures (forall path: string | path != "" && NUL !in path :: BranchTop(Cut(path)) < n) <==> 4094 <= n
    ensures (forall path: string | path != "" && NUL !in path :: LeafTop(Core(path), Cut(path)) < n)
        <==> 4094 <= n
  {
    if n < PATH_LENGTH - 2 {
      var name := seq(n + 1, _ => 'a');
      var deep, flat := (if n == 0 then "a" else name[..n]) + "/b", "/" + name;
      CutAt(deep, if n == 0 then 1 else n);
      CutAt(flat, 0);
      assert BranchTop(Cut(deep)) >= n && LeafTop(Core(flat), Cut(flat)) >= n;
    } else {
      forall path: string | path != "" && NUL !in path
        ensures BranchTop(Cut(path)) < n && LeafTop(Core(path), Cut(path)) < n
      {
        TopBound(path);
      }
    }
  }

  lemma TopBound(path: string)
    requires path != ""
    ensures BranchTop(Cut(path)) <= PATH_LENGTH - 3 && LeafTop(Core(path), Cut(path)) <= PATH_LENGTH - 3
  {
    var t := Core(path);
    hide Trimmed, LastSlash;
    assert |t| <= PATH_LENGTH - 1;
    assert Cut(path) == |t| - 1 ==> |t| == 1;
  }

  lemma KeptHasNoNul(path: string)
    requires NUL !in path
    ensures NUL !in Core(path)
  {
    assert forall c <- Core(path) :: c in Kept(path) && c in path;
  }

  // ---------------------------------------------------------------------------
  // Directories
  // ---------------------------------------------------------------------------

  /** The names on a path: what is between delimiters, except for nothing. */
  function Names(path: string): (names: seq<string>)
    decreases |path|
  {
    if path == "" then []
    else
      var i := LastSlash(path);
      Names(Before(path)) + if i + 1 == |path| then [] else [path[i + 1..]]
  }

  /** The path up to its last delimiter. */
  function Before(path: string): (p: string)
    ensures path != "" ==> |p| < |path|
  {
    var i := LastSlash(path);
    if i < 0 then "" else path[..i]
  }

  /** A place in the tree: below the root, or below the current directory. */
  datatype Place = Place(absolute: bool, names: seq<string>)

  function PlaceOf(path: string): Place {
    Place(path != "" && path[0] == '/', Names(path))
  }

  lemma NamesAt(path: string, i: int)
    requires -1 <= i < |path| && (0 <= i ==> path[i] == '/') && forall k | i < k < |path| :: path[k] != '/'
    ensures Names(path) == (if i < 0 then [] else Names(path[..i])) + if i + 1 == |path| then [] else [path[i + 1..]]
  {
    LastSlashIs(path, i);
    NamesStep(path, i);
  }

  lemma NamesStep(path: string, i: int)
    requires i == LastSlash(path)
    ensures Names(path) == (if i < 0 then [] else Names(path[..i])) + if i + 1 == |path| then [] else [path[i + 1..]]
  {
    hide LastSlash;
  }

  /** What is free of delimiters is one name, unless it is empty. */
  lemma OneName(path: string)
    requires '/' !in path
    ensures Names(path) == if path == "" then [] else [path]
  {
    if path != "" {
      NamesAt(path, -1);
      assert path[0..] == path;
    }
  }

  /** Two paths with a delimiter in between make the names of both. */
  lemma {:induction false} NamesJoined(a: string, b: string)
    ensures Names(a + "/" + b) == Names(a) + Names(b)
    decreases |b|
  {
    var path, i := a + "/" + b, LastSlash(b);
    hide Names, LastSlash;
    assert path[|a|] == '/' && forall k | |a| < k < |path| :: path[k] == b[k - |a| - 1];
    NamesAt(path, |a| + 1 + i);
    if b == "" {
      OneName(b);
      assert path[..|a|] == a;
    } else {
      NamesAt(b, i);
      assert path[|a| + 1 + i + 1..] == b[i + 1..];
      if i < 0 {
        assert path[..|a|] == a;
      } else {
        NamesJoined(a, b[..i]);
        assert path[..|a| + 1 + i] == a + "/" + b[..i];
      }
    }
  }

  /** A path is followed from the root if it starts with a delimiter, and from the current directory otherwise. */
  lemma WhereFrom(path: string)
    ensures PlaceOf("/" + path) == Place(true, Names(path))
    ensures path == "" || path[0] != '/' ==> PlaceOf(path) == Place(false, Names(path))
  {
    hide Names;
    var none := path[..0];
    NamesJoined(none, path);
    OneName(none);
    assert none + "/" + path == "/" + path;
  }

  function Parent(k: Place): Place
    requires k.names != []
  {
    k.(names := k.names[..|k.names| - 1])
  }

  /** The system's answers: what is a directory, what exists and is none, and where it refuses to make one. */
  class Disk {
    var dirs: set<Place>
    const others: set<Place>
    const refused: set<Place>

    /** The two starting points are directories, and every directory has a directory above it. */
    ghost predicate Valid()
      reads this
    {
      Tree(dirs) && others !! dirs
    }

    method IsDirectory(path: string) returns (r: bool)
      requires path != ""
      ensures r <==> PlaceOf(path) in dirs
    {
      return PlaceOf(path) in dirs;
    }

    /** FileSystem_makeDirectory, that is, mkdir. */
    method MakeDirectory(path: string) returns (ok: bool)
      requires Valid()
      modifies this
      ensures Valid()
      ensures var k := PlaceOf(path);
              && ok == Possible(old(dirs), k, others + refused)
              && dirs == if ok then old(dirs) + {k} else old(dirs)
    {
      var k := PlaceOf(path);
      ok := Possible(dirs, k, others + refused);
      if ok {
        dirs := dirs + {k};
      }
    }

    /** The loop of FileSystem_makeDirectories, on a copy of the path: each delimiter but the first character
        is overwritten for a moment, so that the copy is the path up to there, and restored. */
    method MakeAbove(tmp: array<char>, ghost cut: string)
      requires Valid() && |cut| < tmp.Length && 1 < tmp.Length && NUL !in cut
      requires forall k | 0 <= k < tmp.Length :: tmp[k] == if k < |cut| then cut[k] else NUL
      modifies this, tmp
      ensures Valid() && tmp[..] == old(tmp[..])
      ensures dirs == Made(old(dirs), Place(PlaceOf(cut).absolute, Names(Before(cut))), others + refused)
    {
      hide Names, Before, LastSlash, Made, Possible, Tree, StrLen;
      ghost var before, bad, root, len := dirs, others + refused, PlaceOf(cut).absolute, |cut|;
      FirstName(before, root, cut, bad);
      var p := 1;
      while tmp[p] != NUL
        invariant 1 <= p <= Max(len, 1) && Valid()
        invariant forall k | 0 <= k < tmp.Length :: tmp[k] == if k < len then cut[k] else NUL
        invariant dirs == Made(before, Place(root, Names(Before(cut[..Min(p, len)]))), bad)
        decreases len - p
      {
        BeforeNext(cut, p);
        if tmp[p] == '/' {
          tmp[p] := NUL;
          StrLenIs(tmp[..], p);
          assert Str(tmp[..]) == cut[..p];
          OnTheWay(before, root, cut[..p], bad);
          var isDir := IsDirectory(Str(tmp[..]));
          if !isDir {
            var _ := MakeDirectory(Str(tmp[..]));
          }
          NotTwice(PlaceOf(cut[..p]), bad);
          tmp[p] := '/';
        }
        p := p + 1;
      }
      assert cut[..Min(p, len)] == cut;
    }

    /** FileSystem_makeDirectories. */
    method MakeDirectories(path: string) returns (r: bool)
      requires Valid() && path != "" && NUL !in path
      modifies this
      ensures Valid()
      ensures dirs == Made(old(dirs), PlaceOf(Copy(path)), others + refused)
      ensures r <==> PlaceOf(path) in dirs
      ensures |path| <= PATH_LENGTH - 2 ==> (r <==> Open(old(dirs), PlaceOf(path), others + refused))
    {
      hide Names, Before, LastSlash, Made, Possible, Tree, Open, StrLen;
      ghost var before, bad := dirs, others + refused;
      var tmp := new char[PATH_LENGTH](_ => NUL);
      var len := Min(|path|, PATH_LENGTH - 2);
      forall k | 0 <= k < len {
        tmp[k] := path[k];
      }
      if tmp[len - 1] == '/' {
        tmp[len - 1] := NUL;
        len := len - 1;
      }
      ghost var cut := Copy(path)[..len];
      CutNames(Copy(path), len);
      MakeAbove(tmp, cut);
      StrLenIs(tmp[..], len);
      assert Str(tmp[..]) == cut;
      OnTheWay(before, PlaceOf(cut).absolute, cut, bad);
      var _ := MakeDirectory(Str(tmp[..]));
      StartingPoints(before, cut, Copy(path), bad);
      r := IsDirectory(path);
      assert |path| <= PATH_LENGTH - 2 ==> Copy(path) == path;
      MadeIfOpen(before, PlaceOf(Copy(path)), bad);
    }

    lemma NotTwice(k: Place, bad: set<Place>)
      ensures k in dirs ==> !Possible(dirs, k, bad)
    {
    }
  }

  /** What snprintf leaves of a path. */
  function Copy(path: string): string {
    path[..Min(|path|, PATH_LENGTH - 2)]
  }

  ghost predicate Tree(dirs: set<Place>) {
    && Place(true, []) in dirs && Place(false, []) in dirs
    && forall k | k in dirs && k.names != [] :: Parent(k) in dirs
  }

  predicate Possible(dirs: set<Place>, k: Place, bad: set<Place>) {
    k.names != [] && k !in dirs && k !in bad && Parent(k) in dirs
  }

  /** The directories there are after making one place after the other on the way to k. */
  function Made(dirs: set<Place>, k: Place, bad: set<Place>): set<Place>
    decreases |k.names|
  {
    if k.names == [] then dirs
    else
      var above := Made(dirs, Parent(k), bad);
      if Possible(above, k, bad) then above + {k} else above
  }

  lemma CutNames(copy: string, len: nat)
    requires copy != "" && len <= |copy|
    requires len == if copy[|copy| - 1] == '/' then |copy| - 1 else |copy|
    ensures Names(copy) == Names(copy[..len])
  {
    if len == |copy| {
      assert copy[..len] == copy;
    } else {
      LastSlashIs(copy, len);
    }
  }

  lemma FirstName(dirs: set<Place>, root: bool, cut: string, bad: set<Place>)
    ensures Made(dirs, Place(root, Names(Before(cut[..Min(1, |cut|)]))), bad) == dirs
  {
    assert Before(cut[..Min(1, |cut|)]) == "";
  }

  lemma BeforeNext(s: string, p: nat)
    requires p < |s|
    ensures Before(s[..p + 1]) == if s[p] == '/' then s[..p] else Before(s[..p])
  {
    var i := LastSlash(s[..p]);
    LastSlashIs(s[..p + 1], if s[p] == '/' then p else i);
    assert s[..p + 1][..p] == s[..p];
    assert 0 <= i ==> s[..p + 1][..i] == s[..p][..i];
  }

  lemma StartingPoints(dirs: set<Place>, cut: string, copy: string, bad: set<Place>)
    requires cut <= copy && |copy| <= |cut| + 1 && Names(cut) == Names(copy)
    ensures Made(dirs, PlaceOf(cut), bad) == Made(dirs, PlaceOf(copy), bad)
  {
    if cut == "" {
      assert Names(copy) == [];
    }
  }

  /** One more name on the way, or a delimiter too many. */
  lemma OnTheWay(dirs: set<Place>, root: bool, path: string, bad: set<Place>)
    ensures var d, k := Made(dirs, Place(root, Names(Before(path))), bad), Place(root, Names(path));
            Made(dirs, k, bad) == if Possible(d, k, bad) then d + {k} else d
  {
    var j, k := Place(root, Names(Before(path))), Place(root, Names(path));
    assert k == j || (k.names != [] && Parent(k) == j) by { LastName(path); }
    hide Names, Before;
  }

  lemma LastName(path: string)
    ensures var above, names := Names(Before(path)), Names(path);
            names == above || (names != [] && names[..|names| - 1] == above)
  {
    hide LastSlash;
  }

  /** mkdir -p keeps the tree a tree; it only adds, and what it adds is on the way. Every directory on the way
      is made before what it holds, since each step keeps the tree a tree. */
  lemma {:induction false} MadeIsTree(dirs: set<Place>, k: Place, bad: set<Place>)
    requires Tree(dirs)
    ensures Tree(Made(dirs, k, bad)) && dirs <= Made(dirs, k, bad)
    ensures forall j | j in Made(dirs, k, bad) && j !in dirs :: j.absolute == k.absolute && j.names <= k.names && j !in bad
    decreases |k.names|
  {
    if k.names != [] {
      MadeIsTree(dirs, Parent(k), bad);
    }
  }

  /** Nothing that is no directory, and no refusal, is in the way. */
  ghost predicate Open(dirs: set<Place>, k: Place, bad: set<Place>) {
    forall n | 0 < n <= |k.names| :: OpenAt(dirs, k.(names := k.names[..n]), bad)
  }

  ghost predicate OpenAt(dirs: set<Place>, k: Place, bad: set<Place>) {
    k in dirs || k !in bad
  }

  /** In the end the place is a directory, and with it all places on the way, if and only if nothing is in the
      way. */
  lemma {:induction false} MadeIfOpen(dirs: set<Place>, k: Place, bad: set<Place>)
    requires Tree(dirs)
    ensures k in Made(dirs, k, bad) <==> Open(dirs, k, bad)
    ensures k in Made(dirs, k, bad) ==> forall n | 0 <= n <= |k.names| :: k.(names := k.names[..n]) in Made(dirs, k, bad)
    decreases |k.names|
  {
    MadeIsTree(dirs, k, bad);
    if k in Made(dirs, k, bad) {
      forall n | 0 <= n <= |k.names| ensures k.(names := k.names[..n]) in Made(dirs, k, bad) {
        AboveInTree(Made(dirs, k, bad), k, n);
      }
    }
    if k.names != [] {
      var j := Parent(k);
      MadeIfOpen(dirs, j, bad);
      MadeIsTree(dirs, j, bad);
      MadeIsTree(dirs, k, bad);
      OpenParent(dirs, k, bad);
    }
  }

  /** A tree holds every place above one that it holds. */
  lemma {:induction false} AboveInTree(dirs: set<Place>, k: Place, n: nat)
    requires Tree(dirs) && k in dirs && n <= |k.names|
    ensures k.(names := k.names[..n]) in dirs
    decreases |k.names|
  {
    if n == |k.names| {
      assert k.names[..n] == k.names;
    } else {
      AboveInTree(dirs, Parent(k), n);
      assert Parent(k).names[..n] == k.names[..n];
    }
  }

  lemma OpenParent(dirs: set<Place>, k: Place, bad: set<Place>)
    requires k.names != []
    ensures Open(dirs, k, bad) <==> Open(dirs, Parent(k), bad) && OpenAt(dirs, k, bad)
  {
    var j, m := Parent(k), |k.names|;
    assert k.names[..m] == k.names;
    assert forall n | 0 < n < m :: k.names[..n] == j.names[..n];
    if Open(dirs, k, bad) {
      assert OpenAt(dirs, k.(names := k.names[..m]), bad);
      forall n | 0 < n < m ensures OpenAt(dirs, j.(names := j.names[..n]), bad) {
        assert OpenAt(dirs, k.(names := k.names[..n]), bad);
      }
    }
  }
}
