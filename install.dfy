/** The shell command of `InstallRemotePackageRequest`: `pm install`, the
    reinstall flag, the caller's extra arguments and the path of the package
    on the device. */
module Install {
  import opened Text

  const Prefix: string := "pm install "
  const ReinstallFlag: string := "-r "

  /** A shell word: non-empty and free of the space that separates words. */
  predicate IsWord(w: string) {
    |w| > 0 && ' ' !in w
  }

  /** The command as the constructor builds it: the extra arguments, joined
      by spaces, are followed by the path with no space between them. */
  function InstallCommand(path: string, reinstall: bool, extraArgs: seq<string>): string {
    Prefix + (if reinstall then ReinstallFlag else "")
      + (if |extraArgs| > 0 then Join(extraArgs, " ") else "") + path
  }

  /** The words before the extra arguments: `pm install`, and `-r` when reinstalling. */
  function HeadWords(reinstall: bool): seq<string> {
    ["pm", "install"] + (if reinstall then ["-r"] else [])
  }

  /** The words a shell command is meant to consist of. */
  function InstallWords(path: string, reinstall: bool, extraArgs: seq<string>): seq<string> {
    HeadWords(reinstall) + (extraArgs + [path])
  }

  /** The extra arguments with the path glued onto the last of them. */
  function FusedArgs(extraArgs: seq<string>, path: string): seq<string>
    requires |extraArgs| > 0
  {
    extraArgs[..|extraArgs| - 1] + [extraArgs[|extraArgs| - 1] + path]
  }

  /** The command with a space between the extra arguments and the path. */
  function InstallCommandSeparated(path: string, reinstall: bool, extraArgs: seq<string>): string {
    Prefix + (if reinstall then ReinstallFlag else "")
      + (if |extraArgs| > 0 then Join(extraArgs, " ") + " " else "") + path
  }

  // ---------------------------------------------------------------------------
  // Lemmas

  /** The command starts with `pm install ` and, when reinstalling, the flag;
      it ends with the path, which follows the joined extra arguments
      directly. */
  lemma {:induction false} InstallCommandShape(path: string, reinstall: bool, extraArgs: seq<string>)
    ensures var cmd := InstallCommand(path, reinstall, extraArgs);
      && StartsWith(cmd, Prefix) && EndsWith(cmd, path)
      && (reinstall ==> StartsWith(cmd[|Prefix|..], ReinstallFlag))
      && (reinstall ==>
            cmd[|Prefix| + |ReinstallFlag|..] == (if |extraArgs| > 0 then Join(extraArgs, " ") else "") + path)
      && (!reinstall ==> cmd[|Prefix|..] == Join(extraArgs, " ") + path)
      && (!reinstall && extraArgs == [] ==> cmd == Prefix + path)
  {
    var cmd := InstallCommand(path, reinstall, extraArgs);
    var args := if |extraArgs| > 0 then Join(extraArgs, " ") else "";
    if reinstall {
      assert cmd == Prefix + (ReinstallFlag + (args + path));
      assert cmd[|Prefix|..] == ReinstallFlag + (args + path);
      assert cmd[|Prefix| + |ReinstallFlag|..] == args + path;
    } else {
      assert cmd == Prefix + (args + path);
      assert args == Join(extraArgs, " ");
    }
  }

  /** Without extra arguments the separated command is the command as
      written; it too starts with `pm install ` and ends with the path. */
  lemma {:induction false} SeparatedCommandShape(path: string, reinstall: bool, extraArgs: seq<string>)
    ensures var cmd := InstallCommandSeparated(path, reinstall, extraArgs);
      && StartsWith(cmd, Prefix) && EndsWith(cmd, path)
      && (extraArgs == [] ==> cmd == InstallCommand(path, reinstall, extraArgs))
  {
    var cmd := InstallCommandSeparated(path, reinstall, extraArgs);
    var flag := if reinstall then ReinstallFlag else "";
    var args := if |extraArgs| > 0 then Join(extraArgs, " ") + " " else "";
    assert cmd == Prefix + (flag + args + path);
  }

  /** Splitting the separated command at spaces gives back its words: the
      flag is there exactly when reinstalling, then every extra argument,
      then the path. */
  lemma {:induction false} SeparatedCommandWords(path: string, reinstall: bool, extraArgs: seq<string>)
    requires IsWord(path)
    requires forall i :: 0 <= i < |extraArgs| ==> IsWord(extraArgs[i])
    ensures Split(InstallCommandSeparated(path, reinstall, extraArgs), " ")
      == InstallWords(path, reinstall, extraArgs)
  {
    var words := InstallWords(path, reinstall, extraArgs);
    SeparatedIsJoin(path, reinstall, extraArgs);
    forall i | 0 <= i < |words| ensures ' ' !in words[i] {
    }
    JoinThenSplit(words, ' ');
  }

  /** The separated command is the words joined by single spaces. */
  lemma {:induction false} SeparatedIsJoin(path: string, reinstall: bool, extraArgs: seq<string>)
    ensures InstallCommandSeparated(path, reinstall, extraArgs) == Join(InstallWords(path, reinstall, extraArgs), " ")
  {
    var head, tail := HeadWords(reinstall), extraArgs + [path];
    var flag := if reinstall then ReinstallFlag else "";
    var args := if |extraArgs| > 0 then Join(extraArgs, " ") + " " else "";
    assert InstallCommandSeparated(path, reinstall, extraArgs) == (Prefix + flag) + (args + path);
    JoinAppend(head, tail, " ");
    HeadJoin(reinstall);
    ArgsSpaceThenPath(extraArgs, path);
  }

  /** Joining the arguments and the path is joining the arguments, then a
      space when there are any, then the path. */
  lemma {:induction false} ArgsSpaceThenPath(extraArgs: seq<string>, path: string)
    ensures Join(extraArgs + [path], " ") == (if |extraArgs| > 0 then Join(extraArgs, " ") + " " else "") + path
  {
    if |extraArgs| > 0 {
      JoinSnoc(extraArgs, path, " ");
    } else {
      assert extraArgs + [path] == [path];
    }
  }

  /** As written, the last extra argument and the path run together into one
      word, so the shell sees neither of them. */
  lemma {:induction false} FusedCommandWords(path: string, reinstall: bool, extraArgs: seq<string>)
    requires IsWord(path) && |extraArgs| > 0
    requires forall i :: 0 <= i < |extraArgs| ==> IsWord(extraArgs[i])
    ensures Split(InstallCommand(path, reinstall, extraArgs), " ") == HeadWords(reinstall) + FusedArgs(extraArgs, path)
  {
    var words := HeadWords(reinstall) + FusedArgs(extraArgs, path);
    FusedIsJoin(path, reinstall, extraArgs);
    FusedWordsAreWords(path, reinstall, extraArgs);
    JoinThenSplit(words, ' ');
  }

  /** The command as written is its head words and the fused arguments,
      joined by single spaces. */
  lemma {:induction false} FusedIsJoin(path: string, reinstall: bool, extraArgs: seq<string>)
    requires |extraArgs| > 0
    ensures InstallCommand(path, reinstall, extraArgs) == Join(HeadWords(reinstall) + FusedArgs(extraArgs, path), " ")
  {
    var head, fused := HeadWords(reinstall), FusedArgs(extraArgs, path);
    var flag := if reinstall then ReinstallFlag else "";
    assert InstallCommand(path, reinstall, extraArgs) == (Prefix + flag) + (Join(extraArgs, " ") + path);
    JoinAppend(head, fused, " ");
    HeadJoin(reinstall);
    ArgsThenPath(extraArgs, path);
  }

  /** Joining the arguments and appending the path is joining the fused arguments. */
  lemma {:induction false} ArgsThenPath(extraArgs: seq<string>, path: string)
    requires |extraArgs| > 0
    ensures Join(extraArgs, " ") + path == Join(FusedArgs(extraArgs, path), " ")
  {
    var n := |extraArgs|;
    var front, last := extraArgs[..n - 1], extraArgs[n - 1];
    if n > 1 {
      assert extraArgs == front + [last];
      JoinSnoc(front, last, " ");
      JoinSnoc(front, last + path, " ");
    } else {
      assert FusedArgs(extraArgs, path) == [last + path];
    }
  }

  lemma {:induction false} FusedWordsAreWords(path: string, reinstall: bool, extraArgs: seq<string>)
    requires IsWord(path) && |extraArgs| > 0
    requires forall i :: 0 <= i < |extraArgs| ==> IsWord(extraArgs[i])
    ensures var words := HeadWords(reinstall) + FusedArgs(extraArgs, path);
      forall i :: 0 <= i < |words| ==> ' ' !in words[i]
  {
    var head, fused := HeadWords(reinstall), FusedArgs(extraArgs, path);
    var n := |extraArgs|;
    assert forall i :: 0 <= i < |head| ==> ' ' !in head[i];
    assert forall i :: 0 <= i < n - 1 ==> fused[i] == extraArgs[i];
    assert ' ' !in fused[n - 1];
  }

  /** The head words joined and followed by a space are the prefix and,
      when reinstalling, the flag. */
  lemma {:induction false} HeadJoin(reinstall: bool)
    ensures Join(HeadWords(reinstall), " ") + " " == Prefix + (if reinstall then ReinstallFlag else "")
  {
    var head := HeadWords(reinstall);
    assert Join(["install"], " ") == "install";
    assert Join(["pm", "install"], " ") == "pm" + " " + "install" by {
      assert ["pm", "install"][1..] == ["install"];
    }
    assert Prefix == "pm" + " " + "install" + " ";
    if reinstall {
      assert head == ["pm"] + ["install", "-r"];
      assert Join(["install", "-r"], " ") == "install" + " " + "-r" by {
        assert ["install", "-r"][1..] == ["-r"];
      }
      assert ReinstallFlag == "-r" + " ";
    } else {
      assert head == ["pm", "install"];
    }
  }

  /** The package path of the instance below. */
  const ExamplePath: string := "/sdcard/a.apk"

  /** An instance: `-g` and the path run together into the text
      `-g/sdcard/a.apk`... */
  lemma {:induction false} GrantFlagCommand()
    ensures InstallCommand(ExamplePath, false, ["-g"]) == "pm install -g/sdcard/a.apk"
  {
    assert Join(["-g"], " ") == "-g";
    assert InstallCommand(ExamplePath, false, ["-g"]) == Prefix + "-g" + ExamplePath;
  }

  /** ... which the shell reads as three words, the last of them `-g` and
      the path together, where four were meant. */
  lemma {:induction false} GrantFlagFusedWithPath()
    ensures Split(InstallCommand(ExamplePath, false, ["-g"]), " ") == ["pm", "install", "-g" + ExamplePath]
    ensures InstallWords(ExamplePath, false, ["-g"]) == ["pm", "install", "-g", ExamplePath]
  {
    var args := ["-g"];
    ExamplePathIsWord();
    assert IsWord(args[0]);
    FusedCommandWords(ExamplePath, false, args);
    assert FusedArgs(args, ExamplePath) == ["-g" + ExamplePath];
  }

  lemma {:induction false} ExamplePathIsWord()
    ensures IsWord(ExamplePath)
  {
    assert ExamplePath == "/sdcard" + "/a.apk";
    assert ' ' !in "/sdcard" && ' ' !in "/a.apk";
  }
}
