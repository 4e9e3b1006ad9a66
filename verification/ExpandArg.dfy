/** Recursive expansion in
    nix/overlay/build-support/expand-response-params/expand-response-params.c: one
    String buffer, grown by doubling, serves every level of the recursion. Files are
    a map from names to contents; standard output is a sequence of bytes. */
module ExpandArg {
  import opened Tokenizer

  const NUL: Byte := 0
  const AT: Byte := 64

  type Files = map<Text, Text>

  // ------------------------------------------------------ the buffer

  /** A String: len bytes in use of the cap allocated at data. */
  class Buffer {
    var data: array?<Byte>
    var len: nat
    var cap: nat

    ghost predicate Valid()
      reads this
    {
      cap == (if data == null then 0 else data.Length) && len <= cap
    }

    ghost function Contents(): (r: Text)
      requires Valid()
      reads this, data
      ensures |r| == len
    {
      if data == null then [] else data[..len]
    }

    constructor ()
      ensures Valid() && Contents() == [] && data == null
    {
      data, len, cap := null, 0, 0;
    }

    /** The bytes in use, as the code reads them. */
    lemma Bytes()
      requires Valid() && len > 0
      ensures data != null && len <= data.Length && data[..len] == Contents()
    {}

    /** resize: what was there stays, up to the new length; the capacity only grows,
        and when it must, to twice the length. */
    method Resize(length: nat)
      requires Valid()
      modifies this
      ensures Valid() && len == length && (data == old(data) || fresh(data))
      ensures forall i :: 0 <= i < length && i < old(len) ==> Contents()[i] == old(Contents())[i]
      ensures cap == if old(cap) < length then 2 * length else old(cap)
    {
      ghost var before := Contents();
      len := length;
      if cap < len {
        cap := len * 2;
        var grown := new Byte[cap];
        if data != null {
          forall i | 0 <= i < data.Length { grown[i] := data[i]; }
        }
        data := grown;
      }
    }

    method Append(bytes: Text)
      requires Valid()
      modifies this, data
      ensures Valid() && (data == old(data) || fresh(data))
      ensures Contents() == old(Contents()) + bytes
    {
      ghost var before := Contents();
      Resize(len + |bytes|);
      assert data != null ==> data[..|before|] == before;
      forall i | 0 <= i < |bytes| { data[len - |bytes| + i] := bytes[i]; }
      assert Contents() == before + bytes;
    }
  }

  class Output {
    var written: Text

    constructor ()
      ensures written == []
    {
      written := [];
    }

    method Write(bytes: Text)
      modifies this
      ensures written == old(written) + bytes
    {
      written := written + bytes;
    }
  }

  // ------------------------------------------------------ what expansion means

  /** A C string ends at its first NUL. */
  function UpToNul(s: Text): (r: Text)
    ensures r <= s && NUL !in r
    ensures |r| < |s| ==> s[|r|] == NUL
  {
    if s == [] || s[0] == NUL then [] else [s[0]] + UpToNul(s[1..])
  }

  function NameIn(arg: Text): Text
    requires arg != []
  {
    UpToNul(arg[1..])
  }

  /** The argument is an @ followed by the name of a file that can be opened. */
  predicate Refers(fs: Files, arg: Text) {
    arg != [] && arg[0] == AT && NameIn(arg) in fs
  }

  /** The arguments in the file that an argument refers to, if it does. */
  function Included(fs: Files, arg: Text): seq<Text> {
    if Refers(fs, arg) then Tokens(fs[NameIn(arg)]) else []
  }

  /** Inclusion below this argument nests at most depth files deep. */
  ghost predicate Nests(fs: Files, arg: Text, depth: nat)
    decreases depth
  {
    Refers(fs, arg) ==>
      depth > 0 && forall i :: 0 <= i < |Included(fs, arg)| ==> Nests(fs, Included(fs, arg)[i], depth - 1)
  }

  ghost predicate AllNest(fs: Files, args: seq<Text>, depth: nat) {
    forall i :: 0 <= i < |args| ==> Nests(fs, args[i], depth)
  }

  lemma NestsBelow(fs: Files, arg: Text, depth: nat)
    requires Nests(fs, arg, depth) && Refers(fs, arg)
    ensures depth > 0 && AllNest(fs, Included(fs, arg), depth - 1)
  {
    hide Included, Refers;
  }

  /** The arguments one argument stands for: itself, or those of the file it names,
      expanded in turn. */
  ghost function Expansion(fs: Files, depth: nat, arg: Text): seq<Text>
    requires Nests(fs, arg, depth)
    decreases depth, 0
  {
    if Refers(fs, arg) then
      NestsBelow(fs, arg, depth);
      Expansions(fs, depth - 1, Included(fs, arg))
    else [arg]
  }

  ghost function Expansions(fs: Files, depth: nat, args: seq<Text>): seq<Text>
    requires AllNest(fs, args, depth)
    decreases depth, |args| + 1
  {
    if args == [] then []
    else
      var n := |args| - 1;
      Expansions(fs, depth, args[..n]) + Expansion(fs, depth, args[n])
  }

  /** Each argument followed by a NUL. */
  function Terminated(args: seq<Text>): Text {
    if args == [] then [] else Terminated(args[..|args| - 1]) + args[|args| - 1] + [NUL]
  }

  lemma {:induction false} TerminatedConcat(a: seq<Text>, b: seq<Text>)
    ensures Terminated(a + b) == Terminated(a) + Terminated(b)
  {
    if b == [] {
      assert a + b == a;
    } else {
      var n := |b| - 1;
      assert (a + b)[..|a + b| - 1] == a + b[..n];
      TerminatedConcat(a, b[..n]);
    }
  }

  /** The output for one more argument follows the output so far. */
  lemma OneMore(fs: Files, depth: nat, done: seq<Text>, word: Text)
    requires AllNest(fs, done, depth) && Nests(fs, word, depth)
    ensures AllNest(fs, done + [word], depth)
    ensures Terminated(Expansions(fs, depth, done + [word]))
         == Terminated(Expansions(fs, depth, done)) + Terminated(Expansion(fs, depth, word))
  {
    hide Nests, Expansion, Terminated;
    assert (done + [word])[..|done|] == done;
    TerminatedConcat(Expansions(fs, depth, done), Expansion(fs, depth, word));
  }

  /** The terminating NUL is not part of the name. */
  lemma {:induction false} NameBeforeNul(s: Text)
    ensures UpToNul(s + [NUL]) == UpToNul(s)
  {
    if s != [] && s[0] != NUL {
      assert (s + [NUL])[1..] == s[1..] + [NUL];
      NameBeforeNul(s[1..]);
    }
  }

  /** The test at the head of expandArg, on the token and its NUL. */
  lemma Opening(fs: Files, token: Text, s: Text)
    requires s == token + [NUL]
    ensures Refers(fs, token) <==> s[0] == AT && UpToNul(s[1..]) in fs
    ensures Refers(fs, token) ==> token != [] && NameIn(token) == UpToNul(s[1..])
  {
    hide UpToNul;
    if token != [] {
      assert s[1..] == token[1..] + [NUL];
      NameBeforeNul(token[1..]);
    }
  }

  /** After k characters of a file: the arguments completed, the state, and the
      argument under way. */
  ghost predicate Reading(file: Text, k: nat, words: seq<Text>, cur: State, under: Text) {
    k <= |file| && Run(START, file[..k]) == Progress(words, cur, under)
  }

  /** int to char. */
  function ToChar(c: int): Byte { c % 256 }

  function Fgetc(file: Text, k: nat): int { if k < |file| then file[k] else EOF }

  lemma ReadOne(file: Text, k: nat, words: seq<Text>, cur: State, under: Text)
    requires Reading(file, k, words, cur, under) && k < |file|
    ensures var p := Feed(Progress(words, cur, under), file[k]);
      Reading(file, k + 1, p.words, p.state, p.arg) && p.words <= Tokens(file)
  {
    hide Run, Feed, Tokens;
    assert file[..k + 1] == file[..k] + [file[k]];
    RunConcat(START, file[..k], [file[k]]);
    RunOne(Run(START, file[..k]), file[k]);
    PrefixTokens(file, k + 1);
  }

  /** The next character, or the end of the file, completes an argument. */
  lemma ArgumentEnds(file: Text, k: nat, words: seq<Text>, cur: State, under: Text)
    requires k <= |file| && Reading(file, k, words, cur, under) && Ends(cur, Fgetc(file, k))
    ensures words + [under] <= Tokens(file)
    ensures k < |file| ==> Reading(file, k + 1, words + [under], Next(cur, file[k]), [])
    ensures k == |file| ==> words + [under] == Tokens(file)
  {
    hide Run, Reading, Next, Ends;
    if k < |file| { ReadOne(file, k, words, cur, under); } else { FileEnds(file, words, cur, under); }
  }

  /** It does not, and is kept or dropped. */
  lemma ArgumentGoesOn(file: Text, k: nat, words: seq<Text>, cur: State, under: Text)
    requires k <= |file| && Reading(file, k, words, cur, under) && !Ends(cur, Fgetc(file, k))
    ensures k < |file| ==>
      Reading(file, k + 1, words, Next(cur, file[k]), if Keeps(cur, file[k]) then under + [file[k]] else under)
    ensures k == |file| ==> words == Tokens(file)
  {
    hide Run, Reading, Next, Ends, Keeps;
    if k < |file| { ReadOne(file, k, words, cur, under); } else { FileEnds(file, words, cur, under); }
  }

  lemma FileEnds(file: Text, words: seq<Text>, cur: State, under: Text)
    requires Reading(file, |file|, words, cur, under)
    ensures Tokens(file) == if Ends(cur, EOF) then words + [under] else words
  {
    hide Run, Ends;
    PrefixTokens(file, |file|);
  }

  /** An argument completed inside a file nests less deep than what refers to the file. */
  lemma WordNests(fs: Files, depth: nat, token: Text, words: seq<Text>, word: Text)
    requires Nests(fs, token, depth) && Refers(fs, token) && words + [word] <= Included(fs, token)
    ensures depth > 0 && Nests(fs, word, depth - 1)
  {
    hide Nests, Included, Refers;
    NestsBelow(fs, token, depth);
    assert Included(fs, token)[|words|] == word;
  }

  // ------------------------------------------------------ the program

  /** expandArg on a buffer that holds the token and its NUL. */
  method Expand(arg: Buffer, fs: Files, stdout: Output, ghost depth: nat, ghost token: Text)
    requires Nests(fs, token, depth)
    requires arg.Valid() && arg.Contents() == token + [NUL]
    modifies arg, arg.data, stdout
    ensures arg.Valid() && (arg.data == old(arg.data) || fresh(arg.data))
    ensures stdout.written == old(stdout.written) + Terminated(Expansion(fs, depth, token))
    decreases depth
  {
    hide Nests, AllNest, Run, Tokens, Next, Ends, Keeps, Expansions, Expansion, Terminated, UpToNul,
         Buffer.Valid, Buffer.Contents, Refers, NameIn, Included, Reading;
    Unfold(fs, depth, token);
    arg.Bytes();
    assert arg.data[1..arg.len] == arg.data[..arg.len][1..];
    Opening(fs, token, arg.data[..arg.len]);
    if arg.data[0] != AT || UpToNul(arg.data[1..arg.len]) !in fs {
      stdout.Write(arg.data[..arg.len]);
      return;
    }
    var file := fs[UpToNul(arg.data[1..arg.len])];
    arg.Resize(0);
    var cur := Outside;
    var position: nat, c: int := 0, 0;
    ghost var words: seq<Text> := [];
    StartOf(fs, depth - 1, file);
    while c != EOF
      invariant position <= |file| + 1 && (c == EOF <==> position == |file| + 1)
      invariant arg.Valid() && (arg.data == old(arg.data) || fresh(arg.data))
      invariant if c == EOF then words == Tokens(file) else Reading(file, position, words, cur, arg.Contents())
      invariant AllNest(fs, words, depth - 1)
      invariant stdout.written == old(stdout.written) + Terminated(Expansions(fs, depth - 1, words))
      decreases |file| + 1 - position
    {
      c := Fgetc(file, position);
      var next := Next(cur, c);
      if Ends(cur, c) {
        ghost var word := arg.Contents();
        ArgumentEnds(file, position, words, cur, word);
        WordNests(fs, depth, token, words, word);
        OneMore(fs, depth - 1, words, word);
        arg.Append([NUL]);
        Expand(arg, fs, stdout, depth - 1, word);
        arg.Resize(0);
        words := words + [word];
      } else {
        ArgumentGoesOn(file, position, words, cur, arg.Contents());
        if Keeps(cur, c) {
          arg.Append([ToChar(c)]);
        }
      }
      position := position + 1;
      cur := next;
    }
  }

  lemma StartOf(fs: Files, depth: nat, file: Text)
    ensures Reading(file, 0, [], Outside, [])
    ensures AllNest(fs, [], depth) && Terminated(Expansions(fs, depth, [])) == []
  {
    hide Nests;
    RunNone(START);
    assert file[..0] == [];
  }

  /** Expansion, one level deep. */
  lemma Unfold(fs: Files, depth: nat, token: Text)
    requires Nests(fs, token, depth)
    ensures Refers(fs, token) ==>
      && depth > 0 && AllNest(fs, Included(fs, token), depth - 1)
      && token != [] && NameIn(token) in fs && Included(fs, token) == Tokens(fs[NameIn(token)])
      && Expansion(fs, depth, token) == Expansions(fs, depth - 1, Included(fs, token))
    ensures !Refers(fs, token) ==> Expansion(fs, depth, token) == [token] && Terminated([token]) == token + [NUL]
  {
    hide Tokens, NameIn, Expansions, AllNest, Nests;
    if Refers(fs, token) {
      NestsBelow(fs, token, depth);
    } else {
      assert [token][..0] == [];
      assert Terminated([]) == [];
      assert [] + token + [NUL] == token + [NUL];
    }
  }

  /** main: the arguments are C strings. */
  method ExpandArguments(argv: seq<Text>, fs: Files, stdout: Output, ghost depth: nat)
    requires AllNest(fs, argv, depth)
    modifies stdout
    ensures stdout.written == old(stdout.written) + Terminated(Expansions(fs, depth, argv))
  {
    hide Nests, Expansions, Expansion, Terminated, Run, Reading, Buffer.Valid, Buffer.Contents;
    StartOf(fs, depth, []);
    var arg := new Buffer();
    var i := 0;
    while i < |argv|
      invariant 0 <= i <= |argv| && AllNest(fs, argv[..i], depth)
      invariant arg.Valid() && fresh(arg) && (arg.data == null || fresh(arg.data))
      invariant stdout.written == old(stdout.written) + Terminated(Expansions(fs, depth, argv[..i]))
    {
      OneMore(fs, depth, argv[..i], argv[i]);
      assert argv[..i + 1] == argv[..i] + [argv[i]];
      arg.Resize(0);
      arg.Append(argv[i] + [NUL]);
      assert arg.Contents() == argv[i] + [NUL];
      Expand(arg, fs, stdout, depth, argv[i]);
      i := i + 1;
    }
    assert argv[..i] == argv;
  }

  // ------------------------------------------------------ which inclusions end

  /** Each argument refers to a file that holds the next one. */
  ghost predicate Chain(fs: Files, c: seq<Text>) {
    && (forall i :: 0 <= i < |c| ==> Refers(fs, c[i]))
    && (forall i :: 0 <= i < |c| - 1 ==> c[i + 1] in Included(fs, c[i]))
  }

  /** Below a chain the nesting is shallower by its length. */
  lemma {:induction false} NestsAlong(fs: Files, c: seq<Text>, i: nat, j: nat, depth: nat)
    requires Chain(fs, c) && i <= j < |c| && Nests(fs, c[i], depth)
    ensures depth > j - i && Nests(fs, c[j], depth - (j - i))
    decreases j - i
  {
    hide Included, Refers, Nests;
    NestsBelow(fs, c[i], depth);
    if i < j {
      assert c[i + 1] in Included(fs, c[i]);
      NestsAlong(fs, c, i + 1, j, depth - 1);
    }
  }

  lemma ChainFrom(fs: Files, arg: Text, rest: seq<Text>)
    requires Refers(fs, arg) && Chain(fs, rest)
    requires rest != [] ==> rest[0] in Included(fs, arg)
    ensures Chain(fs, [arg] + rest)
  {
    hide Included, Refers;
    var c := [arg] + rest;
    forall i | 0 <= i < |c|
      ensures Refers(fs, c[i])
      ensures i < |c| - 1 ==> c[i + 1] in Included(fs, c[i])
    {
      if i > 0 { assert c[i] == rest[i - 1]; }
      if i < |c| - 1 { assert c[i + 1] == rest[i]; }
    }
  }

  /** An inclusion too deep for some depth contains a chain that long. */
  lemma {:induction false} DeepChain(fs: Files, arg: Text, depth: nat) returns (c: seq<Text>)
    requires !Nests(fs, arg, depth)
    ensures |c| == depth + 1 && c[0] == arg && Chain(fs, c)
    decreases depth
  {
    hide Included, Refers, Chain;
    var rest: seq<Text> := [];
    if depth > 0 {
      var i :| 0 <= i < |Included(fs, arg)| && !Nests(fs, Included(fs, arg)[i], depth - 1);
      rest := DeepChain(fs, Included(fs, arg)[i], depth - 1);
    } else {
      EmptyChain(fs);
    }
    ChainFrom(fs, arg, rest);
    c := [arg] + rest;
  }

  lemma EmptyChain(fs: Files)
    ensures Chain(fs, [])
  {}

  /** Some file is reached again from itself. */
  ghost predicate Cyclic(fs: Files, c: seq<Text>, i: nat, j: nat) {
    Chain(fs, c) && i < j < |c| && c[i] != [] && c[j] != [] && NameIn(c[i]) == NameIn(c[j])
  }

  lemma SameFileNests(fs: Files, a: Text, b: Text, depth: nat)
    requires Refers(fs, a) && Refers(fs, b) && NameIn(a) == NameIn(b) && Nests(fs, a, depth)
    ensures Nests(fs, b, depth)
  {
    hide Tokens, NameIn;
    assert Included(fs, a) == Included(fs, b);
  }

  lemma {:induction false} CycleNeverNests(fs: Files, c: seq<Text>, i: nat, j: nat, depth: nat)
    requires Cyclic(fs, c, i, j)
    ensures !Nests(fs, c[i], depth)
    decreases depth
  {
    hide Nests, Included, NameIn;
    if Nests(fs, c[i], depth) {
      NestsAlong(fs, c, i, j, depth);
      SameFileNests(fs, c[j], c[i], depth - (j - i));
      CycleNeverNests(fs, c, i, j, depth - (j - i));
    }
  }

  /** A chain longer than there are files meets one twice. */
  lemma {:induction false} LongChainRepeats(fs: Files, c: seq<Text>) returns (i: nat, j: nat)
    requires Chain(fs, c) && |c| > |fs|
    ensures Cyclic(fs, c, i, j)
  {
    hide Included, Tokens;
    var names := seq(|c|, k requires 0 <= k < |c| => if c[k] == [] then [] else NameIn(c[k]));
    i, j := Repeats(names, fs.Keys);
  }

  lemma {:induction false} Repeats(names: seq<Text>, pool: set<Text>) returns (i: nat, j: nat)
    requires |names| > |pool| && forall k :: 0 <= k < |names| ==> names[k] in pool
    ensures i < j < |names| && names[i] == names[j]
    decreases |names|
  {
    var last := |names| - 1;
    if k :| 0 <= k < last && names[k] == names[last] {
      return k, last;
    }
    i, j := Repeats(names[..last], pool - {names[last]});
  }

  ghost predicate ReachesCycle(fs: Files, arg: Text) {
    exists c: seq<Text>, i: nat, j: nat :: c != [] && c[0] == arg && Cyclic(fs, c, i, j)
  }

  /** Inclusion nests to a bounded depth from exactly the arguments that reach no cycle,
      and then as many levels as there are files are enough. */
  lemma NestsUnlessCyclic(fs: Files, arg: Text)
    ensures (exists depth: nat :: Nests(fs, arg, depth)) <==> !ReachesCycle(fs, arg)
    ensures !ReachesCycle(fs, arg) ==> Nests(fs, arg, |fs|)
  {
    hide Cyclic, Included, Refers;
    if !Nests(fs, arg, |fs|) {
      var c := DeepChain(fs, arg, |fs|);
      var i, j := LongChainRepeats(fs, c);
      assert c != [] && c[0] == arg && Cyclic(fs, c, i, j);
    }
    if ReachesCycle(fs, arg) {
      var c: seq<Text>, i: nat, j: nat :| c != [] && c[0] == arg && Cyclic(fs, c, i, j);
      if depth: nat :| Nests(fs, arg, depth) {
        CycleBelow(fs, c, i, j, depth);
        assert false;
      }
    } else {
      assert exists depth: nat :: Nests(fs, arg, depth);
    }
  }

  lemma CycleBelow(fs: Files, c: seq<Text>, i: nat, j: nat, depth: nat)
    requires Cyclic(fs, c, i, j)
    ensures !Nests(fs, c[0], depth)
  {
    hide Nests, NameIn, Included;
    if Nests(fs, c[0], depth) {
      NestsAlong(fs, c, 0, i, depth);
      CycleNeverNests(fs, c, i, j, depth - i);
    }
  }

  // ------------------------------------------------------ what the output says

  /** The reader's side: the stretches each ended by a NUL. */
  function SplitAtNul(s: Text): seq<Text>
    decreases |s|
  {
    var word := UpToNul(s);
    if |word| == |s| then [] else [word] + SplitAtNul(s[|word| + 1..])
  }

  lemma {:induction false} UpToFirstNul(word: Text, rest: Text)
    requires NUL !in word
    ensures UpToNul(word + [NUL] + rest) == word
  {
    if word != [] {
      assert (word + [NUL] + rest)[1..] == word[1..] + [NUL] + rest;
      UpToFirstNul(word[1..], rest);
    }
  }

  predicate NulFree(args: seq<Text>) { forall i :: 0 <= i < |args| ==> NUL !in args[i] }

  /** A reader that splits at NULs gets the arguments back. */
  lemma {:induction false} OutputDecodes(args: seq<Text>)
    requires NulFree(args)
    ensures SplitAtNul(Terminated(args)) == args
  {
    hide UpToNul, Terminated;
    if args == [] {
      assert Terminated([]) == [] by { NothingWritten(); }
    } else {
      var first, rest := args[0], Terminated(args[1..]);
      FirstWritten(args);
      var s := first + [NUL] + rest;
      UpToFirstNul(first, rest);
      assert s[|first| + 1..] == rest;
      OutputDecodes(args[1..]);
    }
  }

  lemma NothingWritten()
    ensures Terminated([]) == []
  {}

  lemma FirstWritten(args: seq<Text>)
    requires args != []
    ensures Terminated(args) == args[0] + [NUL] + Terminated(args[1..])
  {
    TerminatedConcat([args[0]], args[1..]);
    assert [args[0]] + args[1..] == args;
    assert Terminated([args[0]]) == args[0] + [NUL] by {
      var one := [args[0]];
      assert one[..0] == [];
      assert [] + args[0] + [NUL] == args[0] + [NUL];
    }
  }

  /** What a file's arguments are made of comes from the file. */
  lemma {:induction false} WordsFrom(p: Progress, s: Text, b: Byte)
    requires b !in s && b !in p.arg && forall i :: 0 <= i < |p.words| ==> b !in p.words[i]
    ensures var r := Run(p, s);
      b !in r.arg && forall i :: 0 <= i < |r.words| ==> b !in r.words[i]
    decreases s
  {
    hide Next, Ends, Keeps;
    if s != [] { WordsFrom(Feed(p, s[0]), s[1..], b); }
  }

  lemma TokensNulFree(s: Text)
    requires NUL !in s
    ensures NulFree(Tokens(s))
  {
    hide Run, Ends;
    WordsFrom(START, s, NUL);
  }

  predicate FilesNulFree(fs: Files) { forall name :: name in fs ==> NUL !in fs[name] }

  /** Every argument written out is final: it refers to no file, and in files without
      NULs it holds none. */
  lemma {:induction false} ExpansionFinal(fs: Files, depth: nat, arg: Text)
    requires Nests(fs, arg, depth)
    ensures forall i :: 0 <= i < |Expansion(fs, depth, arg)| ==> !Refers(fs, Expansion(fs, depth, arg)[i])
    ensures FilesNulFree(fs) && NUL !in arg ==> NulFree(Expansion(fs, depth, arg))
    decreases depth, 0
  {
    hide Nests, AllNest, Refers, FilesNulFree, Included, Expansions;
    if Refers(fs, arg) {
      NestsBelow(fs, arg, depth);
      IncludedNulFree(fs, arg);
      ExpansionsFinal(fs, depth - 1, Included(fs, arg));
    }
  }

  lemma IncludedNulFree(fs: Files, arg: Text)
    ensures FilesNulFree(fs) ==> NulFree(Included(fs, arg))
  {
    hide Tokens;
    if FilesNulFree(fs) && Refers(fs, arg) { TokensNulFree(fs[NameIn(arg)]); }
  }

  lemma {:induction false} ExpansionsFinal(fs: Files, depth: nat, args: seq<Text>)
    requires AllNest(fs, args, depth)
    ensures forall i :: 0 <= i < |Expansions(fs, depth, args)| ==> !Refers(fs, Expansions(fs, depth, args)[i])
    ensures FilesNulFree(fs) && NulFree(args) ==> NulFree(Expansions(fs, depth, args))
    decreases depth, |args| + 1
  {
    hide Nests, Refers, FilesNulFree, Expansion;
    if args != [] {
      var n := |args| - 1;
      ExpansionsFinal(fs, depth, args[..n]);
      ExpansionFinal(fs, depth, args[n]);
    }
  }

  /** Arguments that name no file are written as they are. */
  lemma {:induction false} PlainArguments(fs: Files, depth: nat, args: seq<Text>)
    requires forall i :: 0 <= i < |args| ==> !Refers(fs, args[i])
    ensures AllNest(fs, args, depth) && Expansions(fs, depth, args) == args
  {
    hide Refers, Expansion;
    if args != [] {
      PlainArguments(fs, depth, args[..|args| - 1]);
      Unfold(fs, depth, args[|args| - 1]);
    }
  }

  /** The result does not depend on the bound that shows the inclusion to end. */
  lemma {:induction false} DepthIrrelevant(fs: Files, depth: nat, other: nat, arg: Text)
    requires Nests(fs, arg, depth) && Nests(fs, arg, other)
    ensures Expansion(fs, depth, arg) == Expansion(fs, other, arg)
    decreases depth, 0
  {
    hide Nests, AllNest, Included, Expansions;
    if Refers(fs, arg) {
      NestsBelow(fs, arg, depth);
      NestsBelow(fs, arg, other);
      DepthsIrrelevant(fs, depth - 1, other - 1, Included(fs, arg));
    }
  }

  lemma {:induction false} DepthsIrrelevant(fs: Files, depth: nat, other: nat, args: seq<Text>)
    requires AllNest(fs, args, depth) && AllNest(fs, args, other)
    ensures Expansions(fs, depth, args) == Expansions(fs, other, args)
    decreases depth, |args| + 1
  {
    hide Nests, Expansion;
    if args != [] {
      DepthsIrrelevant(fs, depth, other, args[..|args| - 1]);
      DepthIrrelevant(fs, depth, other, args[|args| - 1]);
    }
  }

  lemma {:induction false} NameOfNulFree(name: Text)
    requires NUL !in name
    ensures UpToNul(name) == name
  {
    if name != [] { NameOfNulFree(name[1..]); }
  }

  /** A response file of quoted arguments stands for those arguments, which may
      themselves refer to further files; when they do not, the reader of the output
      gets exactly the quoted list back. */
  lemma ResponseFileStandsForArguments(fs: Files, depth: nat, name: Text, args: seq<Text>)
    requires name in fs && NUL !in name && fs[name] == QuotedLine(args)
    requires Nests(fs, [AT] + name, depth)
    ensures depth > 0 && AllNest(fs, args, depth - 1)
    ensures Expansion(fs, depth, [AT] + name) == Expansions(fs, depth - 1, args)
    ensures NulFree(args) && (forall i :: 0 <= i < |args| ==> !Refers(fs, args[i])) ==>
      SplitAtNul(Terminated(Expansion(fs, depth, [AT] + name))) == args
  {
    hide Nests, AllNest, Tokens, Expansions, UpToNul, SplitAtNul, Terminated, QuotedLine, Expansion;
    assert ([AT] + name)[1..] == name;
    NameOfNulFree(name);
    QuotingRoundTrip(args);
    Unfold(fs, depth, [AT] + name);
    if NulFree(args) && forall i :: 0 <= i < |args| ==> !Refers(fs, args[i]) {
      PlainArguments(fs, depth - 1, args);
      OutputDecodes(args);
    }
  }

  // ------------------------------------------------------ byte by byte

  /** An argument without NULs refers to a file when it is an at sign (64) followed by
      the file's name; a NUL (0) ends the name. */
  lemma NamedFile(fs: Files, arg: Text, rest: Text)
    requires 0 !in arg
    ensures Refers(fs, arg) <==> arg != [] && arg[0] == 64 && arg[1..] in fs
    ensures Refers(fs, arg + [0] + rest) <==> Refers(fs, arg)
    ensures Refers(fs, arg) ==> Included(fs, arg) == Tokens(fs[arg[1..]])
  {
    hide Tokens, UpToNul;
    if arg != [] {
      NameOfNulFree(arg[1..]);
      UpToFirstNul(arg[1..], rest);
      assert (arg + [0] + rest)[1..] == arg[1..] + [0] + rest;
    }
  }

  /** Each argument written is followed by one NUL. */
  lemma WrittenBytes(args: seq<Text>, last: Text)
    ensures Terminated([]) == [] && Terminated(args + [last]) == Terminated(args) + last + [0]
  {
    assert (args + [last])[..|args|] == args;
  }
}
