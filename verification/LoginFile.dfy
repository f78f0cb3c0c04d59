/** A set or remove command of mysql_config_editor from file to file: read and decrypt, edit in place,
    encrypt and write. */
module LoginFile {
  import opened Common
  import opened LoginText
  import opened LoginCommands
  import LoginBuffer
  import LoginCipher

  lemma {:induction false} TextTerminated(paths: seq<Path>)
    ensures Text(paths) == "" || Text(paths)[|Text(paths)| - 1] == '\n'
  {
    if paths != [] {
      TextTerminated(paths[1..]);
    }
  }

  /** The file holds these login paths. */
  ghost predicate Stores(enc: string -> seq<byte>, file: seq<byte>, paths: seq<Path>)
    requires forall s: string | s != "" :: |enc(s)| == LoginCipher.AesSize(|s|)
  {
    && Proper(paths) && NUL !in Text(paths)
    && LoginCipher.Fits(Text(paths)) && file == LoginCipher.Records(enc, Text(paths))
  }

  /** What is read from a file is the text of its login paths. */
  lemma StoredIsRead(enc: string -> seq<byte>, dec: seq<byte> -> Option<string>,
                     file: seq<byte>, paths: seq<Path>)
    requires LoginCipher.Inverse(enc, dec) && Stores(enc, file, paths)
    ensures LoginCipher.Read(dec, file) == Some(Text(paths))
  {
    LoginCipher.WrittenIsRead(enc, dec, Text(paths));
    LoginCipher.KeptExactly(Text(paths));
    TextTerminated(paths);
  }

  /** What is read from a file after a write, complete or not. */
  lemma FittingIsRead(enc: string -> seq<byte>, dec: seq<byte> -> Option<string>, paths: seq<Path>)
    requires LoginCipher.Inverse(enc, dec) && NUL !in Text(paths)
    ensures LoginCipher.Read(dec, LoginCipher.Written(enc, Text(paths))) == Some(LoginCipher.FittingPart(Text(paths)))
    ensures LoginCipher.Fits(Text(paths)) ==>
              LoginCipher.Written(enc, Text(paths)) == LoginCipher.Records(enc, Text(paths))
  {
    hide LoginCipher.Read, LoginCipher.Records, LoginCipher.Fits, LoginCipher.FittingPart, LoginCipher.Kept, Text;
    var part := LoginCipher.FittingPart(Text(paths));
    LoginCipher.FittingFits(Text(paths));
    LoginCipher.WrittenIsRead(enc, dec, part);
    LoginCipher.KeptExactly(part);
    TextTerminated(paths);
  }

  ghost predicate NulFree(c: Command) {
    NUL !in c.name && (c.Set? ==> NUL !in Render(Path(c.name, Given(c.options, KEYS))))
  }

  /** `ob_ob_remove_options` with some options given. */
  method RemoveGiven(buf: LoginBuffer.Buffer, name: string, keys: set<Key>, ghost paths: seq<Path>)
    requires buf.Valid() && buf.Contents() == Text(paths) && Proper(paths) && PlainName(name)
    modifies buf, buf.str
    ensures buf.Valid() && buf.Contents() == RemoveOptions(Text(paths), name, keys, KEYS)
  {
    hide Proper, RemoveOption, Text, Drop;
    ghost var now := paths;
    assert KEYS[0..] == KEYS;
    for i := 0 to |KEYS|
      invariant buf.Valid() && buf.str == old(buf.str) && buf.Contents() == Text(now) && Proper(now)
      invariant RemoveOptions(Text(paths), name, keys, KEYS) == RemoveOptions(Text(now), name, keys, KEYS[i..])
    {
      assert KEYS[i..][0] == KEYS[i] && KEYS[i..][1..] == KEYS[i + 1..];
      if KEYS[i] in keys {
        TextTerminated(now);
        ProperPlain(now);
        RemoveOptionWorks(now, name, KEYS[i]);
        DropPathMeaning(now, name, KEYS[i]);
        buf.RemoveOptionLine(name, KEYS[i]);
        now := Drop(now, name, KEYS[i]);
      }
    }
  }

  /** The edit of a command, in place. */
  method Edit(buf: LoginBuffer.Buffer, c: Command, ghost paths: seq<Path>)
    requires buf.Valid() && buf.Contents() == Text(paths) && Proper(paths) && PlainCommand(c) && NulFree(c)
    modifies buf, buf.str
    ensures buf.Valid() && buf.Contents() == Execute(Text(paths), c)
  {
    hide Proper, RemovePath, Text, Render, RemoveOptions;
    match c {
      case Set(name, options) =>
        buf.RemoveLoginPath(name);
        buf.Append(Render(Path(name, Given(options, KEYS))));
      case Remove(name, keys) =>
        if keys == {} {
          buf.RemoveLoginPath(name);
        } else {
          RemoveGiven(buf, name, keys, paths);
        }
    }
  }

  /** A command turns a file that stores login paths into one that stores them changed as the command
      says, unless a line has become too long to be written: then it reads as the new text up to that line. */
  method Perform(enc: string -> seq<byte>, dec: seq<byte> -> Option<string>,
                 file: seq<byte>, c: Command, ghost paths: seq<Path>)
    returns (ok: bool, after: seq<byte>, ghost changed: seq<Path>)
    requires LoginCipher.Inverse(enc, dec) && Stores(enc, file, paths) && PlainCommand(c) && NulFree(c)
    ensures ok == LoginCipher.Fits(Execute(Text(paths), c))
    ensures ok ==> && Stores(enc, after, changed) && changed == Listed(paths, c)
                   && Meaning(changed) == Change(Meaning(paths), c)
    ensures LoginCipher.Read(dec, after) == Some(LoginCipher.FittingPart(Execute(Text(paths), c)))
  {
    hide Proper, Text, Execute, Meaning, Change, LoginCipher.Read, LoginCipher.Records, LoginCipher.Written,
         LoginCipher.FittingPart, LoginCipher.Fits, NulFree, PlainCommand, Listed;
    StoredIsRead(enc, dec, file, paths);
    var text := LoginCipher.ReadAndDecrypt(dec, file);
    var buf := new LoginBuffer.Buffer(text.value);
    Edit(buf, c, paths);
    ok, after := LoginCipher.EncryptAndWrite(enc, buf.Contents());
    changed := CommandWorks(paths, c);
    FittingIsRead(enc, dec, changed);
  }
}
