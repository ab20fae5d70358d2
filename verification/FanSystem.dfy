/** The daemon as started on its driver and its display. */
module FanSystem {
  import opened Wrappers
  import opened FanSpec
  import opened FanPwmDriver
  import opened OledPanel
  import opened Ssd1306
  import opened SsdFont
  import opened Display
  import opened FanDaemon

  /** Start-up and message loop, with the events thread, the timers and the kernel at work:
      the replies are those of the whole history, and the panel, in the display
      driver's own font, is on and reads the header and the daemon's mode and numbers. */
  method RunDaemon(panel: Panel, modeReadable: bool, inbox: seq<Received>)
    returns (daemon: Daemon, taken: nat, outbox: seq<string>)
    requires panel.pendingArgs == 0
    requires var start := Start(2, false, modeReadable);
      forall i :: 0 <= i < |inbox| && !StoppedAfter(start, inbox, i) ==> DefinedMessage(start, inbox, i)
    ensures taken <= |inbox|
    ensures var start := Start(2, false, modeReadable);
      && daemon.View() == Run(start, History(inbox[..taken])) && outbox == Replies(start, inbox[..taken])
      && (taken < |inbox| ==> StoppedAfter(start, inbox, taken))
    ensures RowReads(FONT, daemon.oled.panel.ram, 3, "Auto mode   ") <==> daemon.curMode == 0
    ensures RowReads(FONT, daemon.oled.panel.ram, 3, "Manual mode ") <==> daemon.curMode != 0
    ensures Tells(FONT, daemon.oled.panel.ram, daemon.View()) && daemon.oled.panel.on
  {
    var driver := new FanDriver();
    var oled := new Oled(FONT, panel);
    daemon := new Daemon(driver, oled, modeReadable);
    taken, outbox := daemon.MessageLoop(inbox);
    daemon.PanelTellsMode(2, false, modeReadable, History(inbox[..taken]));
  }
}
