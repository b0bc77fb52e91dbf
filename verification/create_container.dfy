/** What happens when the user presses "Create Container": the placeholder
    choice is refused, the chosen distro is looked up in the fixed table of
    images, a `distrobox-create` command line is built, and the text that
    command prints is classified by substring matching into one of three
    verdicts, each announced by a popup. The text the command prints is a
    parameter: nothing is executed. */
module CreateContainer {
  import opened Wrappers
  import opened PyStrings

  /** The first entry of the drop-down, which stands for "no choice yet". */
  const Placeholder: String := "Select Distro"

  /** The drop-down's entries and the container image each one stands for. */
  const Distros: map<String, String> := map[
    "Select Distro" := "",
    "Ubuntu" := "ubuntu:latest",
    "Debian" := "debian:latest"
  ]

  const NoDistroMessage: String := "Please choose a distro first."

  /** The fixed parts of the command line around the image and the name. */
  const CommandHead: String := "distrobox-create --image \""
  const CommandMiddle: String := "\" --name \""
  const CommandTail: String := "\" --nvidia --yes"

  /** The tool's phrase for a successful creation. */
  const CreatedPhrase: String := "successfully created"

  datatype Verdict = AlreadyExists | Created | Failed

  datatype Popup = ErrorPopup(text: String) | InfoPopup(text: String)

  /** The outcome of one press of the button: refused before any command was
      built, stopped by a missing key in the table (Python's KeyError), or a
      command run whose printed text got a verdict and a popup. */
  datatype Action =
    | Refused(popup: Popup)
    | UnknownDistro(key: String)
    | Executed(command: String, verdict: Verdict, popup: Popup)

  /** The image of a drop-down entry; None where the table has no such key. */
  function ContainerUrl(selected: String): (url: Option<String>)
    ensures url.Some? <==> selected in Distros
    ensures url.Some? ==> url.value == Distros[selected]
    ensures url.Some? && selected != Placeholder ==> url.value != [] && '"' !in url.value
  {
    if selected in Distros then Some(Distros[selected]) else None
  }

  /** The command line for creating a container named `name` from `image`. */
  function CommandLine(image: String, name: String): (command: String)
    ensures |command| == |CommandHead| + |image| + |CommandMiddle| + |name| + |CommandTail|
    ensures command[..|CommandHead|] == CommandHead
    ensures command[|command| - |CommandTail|..] == CommandTail
  {
    CommandHead + image + CommandMiddle + name + CommandTail
  }

  /** Read the image and the name back out of a command line: the image runs
      up to the first double quote after the head, the middle part must
      follow, and the name is everything up to the fixed tail. */
  function ParseCommandLine(command: String): Option<(String, String)> {
    var fixedLength := |CommandHead| + |CommandMiddle| + |CommandTail|;
    if |command| < fixedLength
       || command[..|CommandHead|] != CommandHead
       || command[|command| - |CommandTail|..] != CommandTail
    then None
    else
      var body := command[|CommandHead|..|command| - |CommandTail|];
      match FindFrom(body, "\"", 0)
      case None => None
      case Some(q) =>
        if q + |CommandMiddle| <= |body| && body[q..q + |CommandMiddle|] == CommandMiddle
        then Some((body[..q], body[q + |CommandMiddle|..]))
        else None
  }

  /** Building a command line and reading it back gives the image and the
      name that went in, whatever the name holds, provided the image has no
      double quote (as every image in the table). */
  lemma ParseCommandLineRoundTrip(image: String, name: String)
    requires '"' !in image
    ensures ParseCommandLine(CommandLine(image, name)) == Some((image, name))
  {
    var body := image + CommandMiddle + name;
    Associate(CommandHead, image, CommandMiddle, name, CommandTail);
    Frame(CommandHead, body, CommandTail);
    FirstQuote(image, CommandMiddle + name);
    assert image + (CommandMiddle + name) == body;
    Frame(image, CommandMiddle, name);
  }

  /** The slices of a concatenation `h + b + t` at the borders of its parts
      are the parts. */
  lemma Frame(h: String, b: String, t: String)
    ensures var c := h + b + t;
            && c[..|h|] == h
            && c[|c| - |t|..] == t
            && c[|h|..|c| - |t|] == b
            && c[|h| + |b|..] == t
            && c[|h|..] == b + t
  {
  }

  /** A text that starts with a quote-free part followed by a double quote
      has its first double quote right after that part. */
  lemma FirstQuote(image: String, rest: String)
    requires '"' !in image
    requires |rest| > 0 && rest[0] == '"'
    ensures FindFrom(image + rest, "\"", 0) == Some(|image|)
  {
    var body := image + rest;
    assert OccursAt(body, "\"", |image|) by {
      assert body[|image|..|image| + 1] == [rest[0]];
    }
    forall k: nat | k < |image| ensures !OccursAt(body, "\"", k) {
      assert body[k..k + 1] == [image[k]];
    }
  }

  /** Conversely, whatever ParseCommandLine accepts is exactly the command
      line of the image and name it returns, and that image holds no double
      quote. */
  lemma ParseCommandLineSound(command: String)
    requires ParseCommandLine(command).Some?
    ensures var (image, name) := ParseCommandLine(command).value;
            && '"' !in image
            && CommandLine(image, name) == command
  {
    var tailStart := |command| - |CommandTail|;
    var body := command[|CommandHead|..tailStart];
    var q := FindFrom(body, "\"", 0).value;
    var image := body[..q];
    var name := body[q + |CommandMiddle|..];
    assert ParseCommandLine(command).value == (image, name);
    forall k | 0 <= k < |image| ensures image[k] != '"' {
      QuoteFree(body, q, k);
    }
    assert body == image + CommandMiddle + name by {
      Reassemble(body, q, |CommandMiddle|);
    }
    assert command == CommandHead + body + CommandTail by {
      Reassemble(command, |CommandHead|, tailStart - |CommandHead|);
    }
    Associate(CommandHead, image, CommandMiddle, name, CommandTail);
  }

  /** Regrouping a concatenation of five strings. */
  lemma Associate(a: String, b: String, c: String, d: String, e: String)
    ensures a + (b + c + d) + e == a + b + c + d + e
  {
  }

  /** Before the first double quote of a text there is no double quote. */
  lemma QuoteFree(body: String, q: nat, k: nat)
    requires FindFrom(body, "\"", 0) == Some(q)
    requires k < q
    ensures body[k] != '"'
  {
    assert !OccursAt(body, "\"", k);
    assert body[k..k + 1] == [body[k]];
  }

  /** The tool's notice that a container of this name is already there;
      it names the container and ends with "already exists.". */
  function ExistsNotice(name: String): (notice: String)
    ensures Contains(notice, name)
    ensures Contains(notice, "already exists.")
  {
    var head := "Distrobox named '";
    var tail := "' already exists.";
    assert Contains(name, name) by { assert name[..|name|] == name; }
    ContainsInSuperstring(head, name, tail, name);
    assert Contains("already exists.", "already exists.");
    ContainsInSuperstring(head + name + "' ", "already exists.", [], "already exists.");
    assert head + name + "' " + "already exists." + [] == head + name + tail;
    head + name + tail
  }

  /** The verdict on the text the command printed: the "already exists"
      notice for this name wins, then the success phrase, else failure. */
  function Classify(output: String, name: String): (v: Verdict)
    ensures v == AlreadyExists <==> Contains(output, ExistsNotice(name))
    ensures v == Created <==> !Contains(output, ExistsNotice(name)) && Contains(output, CreatedPhrase)
    ensures v == Failed <==> !Contains(output, ExistsNotice(name)) && !Contains(output, CreatedPhrase)
  {
    if Contains(output, ExistsNotice(name)) then AlreadyExists
    else if Contains(output, CreatedPhrase) then Created
    else Failed
  }

  /** The "already exists" notice takes precedence over the success phrase
      even when both are printed, in either order. */
  lemma ExistsNoticeWins(before: String, between: String, after: String, name: String)
    ensures Classify(before + ExistsNotice(name) + between + CreatedPhrase + after, name) == AlreadyExists
    ensures Classify(before + CreatedPhrase + between + ExistsNotice(name) + after, name) == AlreadyExists
  {
    var notice := ExistsNotice(name);
    assert Contains(notice, notice) by { assert notice[..|notice|] == notice; }
    assert before + notice + between + CreatedPhrase + after == before + notice + (between + CreatedPhrase + after);
    ContainsInSuperstring(before, notice, between + CreatedPhrase + after, notice);
    assert before + CreatedPhrase + between + notice + after == (before + CreatedPhrase + between) + notice + after;
    ContainsInSuperstring(before + CreatedPhrase + between, notice, after, notice);
  }

  /** More printed text can only move the verdict up: a success stays at
      least a success and an "already exists" stays one. */
  lemma ClassifyExtended(output: String, before: String, after: String, name: String)
    ensures Classify(output, name) == AlreadyExists ==> Classify(before + output + after, name) == AlreadyExists
    ensures Classify(output, name) != Failed ==> Classify(before + output + after, name) != Failed
  {
    if Contains(output, ExistsNotice(name)) {
      ContainsInSuperstring(before, output, after, ExistsNotice(name));
    }
    if Contains(output, CreatedPhrase) {
      ContainsInSuperstring(before, output, after, CreatedPhrase);
    }
  }

  /** The popup announcing a verdict. */
  function Announcement(v: Verdict, name: String): (p: Popup)
    ensures p.ErrorPopup? <==> v == Failed
  {
    match v
    case AlreadyExists =>
      InfoPopup("Distrobox named '" + name + "' already exists.\nTo enter, run:\n\ndistrobox enter " + name)
    case Created =>
      InfoPopup("Distrobox named '" + name + "' successfully created.")
    case Failed =>
      ErrorPopup("Failed to create Distrobox named '" + name + "'.")
  }

  /** One press of "Create Container" with `name` typed in, `selected` chosen
      in the drop-down, and `output` the text the built command prints. */
  function Create(name: String, selected: String, output: String): (a: Action)
    ensures a.Refused? <==> selected == Placeholder
    ensures a.Refused? ==> a.popup == ErrorPopup(NoDistroMessage)
    ensures a.UnknownDistro? <==> selected !in Distros
    ensures a.Executed? <==> selected in Distros && selected != Placeholder
    ensures a.Executed? ==> ParseCommandLine(a.command) == Some((Distros[selected], name))
    ensures a.Executed? ==> a.verdict == Classify(output, name)
    ensures a.Executed? ==> (a.popup.InfoPopup? <==> a.verdict != Failed)
  {
    if selected == Placeholder then Refused(ErrorPopup(NoDistroMessage))
    else
      match ContainerUrl(selected)
      case None => UnknownDistro(selected)
      case Some(url) =>
        ParseCommandLineRoundTrip(url, name);
        var v := Classify(output, name);
        Executed(CommandLine(url, name), v, Announcement(v, name))
  }
}
