/**
 * The text of TEMPLATE outside its IMAGES display, line by line and region
 * by region, and the fact that none of it holds a brace, so that str.format
 * copies it unchanged. Each line is given without its line break. A long
 * line is written as the concatenation of its phrases (say,
 * "from functools " + "import lru_cache"); that concatenation is exactly the
 * source line.
 */
module TemplateText {

  predicate NoBraces(s: string)
  {
    '{' !in s && '}' !in s
  }

  /** The lines of TEMPLATE before `IMAGES = {{`: the interpreter line and the imports (imageconvert.py lines 59-64). */
  const HeaderLines: seq<string> := [
    "#!/usr/bin/env python3",
    "",
    "import tkinter as tk",
    "from tkinter import ttk",
    "from functools " + "import lru_cache",
    ""
  ]

  /** The cached image loader (imageconvert.py lines 68-71). */
  const LoaderLines: seq<string> := [
    "",
    "@lru_cache(None)",
    "def load_image(name):",
    "    return " + "tk.PhotoImage(" + "data=IMAGES[name])"
  ]

  /** The viewer's start: its callback, window and title label (imageconvert.py lines 72-77). */
  const ViewerSetupLines: seq<string> := [
    "",
    "def main():",
    "    def " + "disp_image(*args):",
    "        disp.config(" + "image=load_image(" + "var.get()))",
    "    root = tk.Tk()",
    "    tk.Label(" + "text=\"Image tester:\")" + ".grid()"
  ]

  /** The viewer's menu of image names, its image label and its main loop (imageconvert.py lines 78-82). */
  const ViewerWidgetLines: seq<string> := [
    "    var = " + "tk.StringVar()",
    "    ttk.OptionMenu(" + "root, var, " + "\"choose an image:\", " + "*IMAGES, " + "command=disp_image)" + ".grid(" + "column=1, row=0)",
    "    disp = " + "tk.Label(root)",
    "    disp.grid(" + "columnspan=2)",
    "    root.mainloop()"
  ]

  /** The script entry point (imageconvert.py lines 83-85). */
  const EntryPointLines: seq<string> := [
    "",
    "if __name__ == " + "'__main__':",
    "    main()"
  ]

  /** The lines of TEMPLATE after the closing `}}` (imageconvert.py lines 68-85). */
  const FooterLines: seq<string> := LoaderLines + ViewerSetupLines + ViewerWidgetLines + EntryPointLines

  predicate AllNoBraces(ls: seq<string>)
  {
    forall k :: 0 <= k < |ls| ==> NoBraces(ls[k])
  }

  lemma HeaderLinesNoBraces()
    ensures AllNoBraces(HeaderLines)
  {
    assert NoBraces("from functools ");
    assert NoBraces("import lru_cache");
  }

  lemma LoaderLinesNoBraces()
    ensures AllNoBraces(LoaderLines)
  {
    assert NoBraces("    return ");
    assert NoBraces("tk.PhotoImage(");
    assert NoBraces("data=IMAGES[name])");
  }

  lemma ViewerSetupLinesNoBraces()
    ensures AllNoBraces(ViewerSetupLines)
  {
    assert NoBraces("    def ");
    assert NoBraces("disp_image(*args):");
    assert NoBraces("        disp.config(");
    assert NoBraces("image=load_image(");
    assert NoBraces("var.get()))");
    assert NoBraces("    tk.Label(");
    assert NoBraces("text=\"Image tester:\")");
    assert NoBraces(".grid()");
  }

  lemma ViewerWidgetLinesNoBraces()
    ensures AllNoBraces(ViewerWidgetLines)
  {
    assert NoBraces("    var = ");
    assert NoBraces("tk.StringVar()");
    assert NoBraces("    ttk.OptionMenu(");
    assert NoBraces("root, var, ");
    assert NoBraces("\"choose an image:\", ");
    assert NoBraces("*IMAGES, ");
    assert NoBraces("command=disp_image)");
    assert NoBraces(".grid(");
    assert NoBraces("column=1, row=0)");
    assert NoBraces("    disp = ");
    assert NoBraces("tk.Label(root)");
    assert NoBraces("    disp.grid(");
    assert NoBraces("columnspan=2)");
  }

  lemma EntryPointLinesNoBraces()
    ensures AllNoBraces(EntryPointLines)
  {
    assert NoBraces("if __name__ == ");
    assert NoBraces("'__main__':");
  }

  /** Lines without braces stay so when regions are put together. */
  lemma AllNoBracesAppend(a: seq<string>, b: seq<string>)
    requires AllNoBraces(a) && AllNoBraces(b)
    ensures AllNoBraces(a + b)
  {
    forall k | 0 <= k < |a + b| ensures NoBraces((a + b)[k]) {
      if k >= |a| {
        assert (a + b)[k] == b[k - |a|];
      }
    }
  }

  lemma FooterLinesNoBraces()
    ensures AllNoBraces(FooterLines)
  {
    LoaderLinesNoBraces();
    ViewerSetupLinesNoBraces();
    ViewerWidgetLinesNoBraces();
    EntryPointLinesNoBraces();
    AllNoBracesAppend(LoaderLines, ViewerSetupLines);
    AllNoBracesAppend(LoaderLines + ViewerSetupLines, ViewerWidgetLines);
    AllNoBracesAppend(LoaderLines + ViewerSetupLines + ViewerWidgetLines, EntryPointLines);
  }
}
