/** Worked inputs for the two parsers: a design page address and a slice size label. */
module PatternExamples {
  import opened Json
  import opened TextPatterns

  lemma DesignIdExample()
    ensures ParseDesignIdFromUrl("/design/42/board") == Some("42")
  {
    var url := "/design/42/board";
    assert DesignIdMatchAt(url, 0, "42") by {
      assert url[0..8] == DesignMarker;
      assert url[8..10] == "42";
    }
    ParseDesignIdLeftmost(url, 0, "42");
  }

  lemma ImageSizeExample()
    ensures ParseImageSize("48px x 36px") == Some(("48", "36"))
  {
    var s := "48px x 36px";
    assert ImageSizeMatchAt(s, 0, "48", "36") by {
      assert s[0..2] == "48";
      assert s[2..7] == PxTimes;
      assert s[7..9] == "36";
      assert s[9..11] == Px;
    }
    ParseImageSizeLeftmost(s, 0, "48", "36");
  }
}
