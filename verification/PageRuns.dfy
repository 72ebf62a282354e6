/** The configuration page over whole runs of the machine. */
module PageRuns {
  import opened CText
  import opened Device
  import opened Runs
  import opened Spiffs
  import ConfigRegister
  import PageServer

  /** Every path delete_files can reach is shorter than the page's. */
  lemma {:induction false} StepKeepsPage(d: Device, e: Event)
    requires !ConfigRegister.Formats(e)
    ensures PAGE_PATH in Step(d, e).0.files <==> PAGE_PATH in d.files
    ensures PAGE_PATH in d.files ==> Step(d, e).0.files[PAGE_PATH] == d.files[PAGE_PATH]
  {
    assert |PAGE_PATH| == 30 && |CONFIG_PATH| == 18;
    match e
    case Ws(Some(root), io) => assert |DeletePath(DeleteName(root, io))| <= 19;
    case _ =>
  }

  lemma {:induction false} PageKept(d: Device, evs: seq<Event>)
    requires forall e :: e in evs ==> !ConfigRegister.Formats(e)
    ensures PAGE_PATH in Final(d, evs).files <==> PAGE_PATH in d.files
    ensures PAGE_PATH in d.files ==> Final(d, evs).files[PAGE_PATH] == d.files[PAGE_PATH]
    decreases |evs|
  {
    if evs != [] {
      StepKeepsPage(d, evs[0]);
      PageKept(Step(d, evs[0]).0, evs[1..]);
    }
  }

  /** Unless the volume is formatted, no command, deletion or restart changes what a visitor
      gets: whenever the device is up and the page opens, exactly the chunks of the initial
      page, which arrives intact exactly if it has no NUL; and 404 exactly if the page does
      not open or was never there. */
  lemma {:induction false} PageServedForever(d: Device, evs: seq<Event>, n: nat, openOk: bool)
    requires n < |evs| && evs[n] == GetPage(openOk) && Before(d, evs, n).up
    requires forall i :: 0 <= i < n ==> !ConfigRegister.Formats(evs[i])
    ensures var seen := Step(Before(d, evs, n), evs[n]).1;
      if openOk && PAGE_PATH in d.files then
        var page := d.files[PAGE_PATH];
        && seen == [PageSent(true, PageServer.Chunks(page) + [""])]
        && (PageServer.Body(seen[0].sent) == page <==> NulFree(page))
      else seen == [PageSent(false, [])]
  {
    PageKept(d, evs[..n]);
    if PAGE_PATH in d.files {
      PageServer.PageArrives(d.files[PAGE_PATH]);
    }
  }
}
